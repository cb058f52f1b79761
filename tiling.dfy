/** The tile partition computed by `WorkQueueInit` (src/main00.c): the tile
    side, the number of tiles on each axis and the row-major rectangle of
    every tile index, with the facts that make the partition safe to render
    in parallel (every tile well formed, no two tiles overlap, every pixel of
    the image lies in exactly one tile). */
module Tiling {
  import opened Arith

  /** A rectangle `[minX, maxX) x [minY, maxY)` in pixel coordinates; the field
      order is that of the source's `tile` struct. */
  datatype Tile = Tile(minX: nat, minY: nat, maxX: nat, maxY: nat)

  /** The source's `Min` macro: the smaller of the two arguments. */
  function Min(a: nat, b: nat): (m: nat)
    ensures m <= a && m <= b
    ensures m == a || m == b
  {
    if a < b then a else b
  }

  /** The source's `Max` macro: the larger of the two arguments. */
  function Max(a: nat, b: nat): (m: nat)
    ensures a <= m && b <= m
    ensures m == a || m == b
  {
    if a > b then a else b
  }

  /** Width and height (the source keeps them apart, in `uint32_t`) stay below
      0x10000 and the thread count fits in `uint32_t`; under this bound every
      value the source stores fits its C type (see `NoOverflow`). */
  predicate Fits(width: nat, height: nat, threadCount: nat)
  {
    width <= 0xFFFF && height <= 0xFFFF && threadCount <= 0xFFFF_FFFF
  }

  /** `Max(10, width / Max(1, threadCount))`: the per-thread share of the
      width, but never below 10 pixels, and defined for `threadCount == 0`. */
  function TileSide(width: nat, threadCount: nat): (side: nat)
    ensures 10 <= side
    ensures width / Max(1, threadCount) <= side
    ensures side == 10 || side == width / Max(1, threadCount)
  {
    Max(10, width / Max(1, threadCount))
  }

  /** `extent / side + 1` tiles of size `side` along one axis: the least count
      whose tiles reach strictly past `extent`. */
  function TilesAcross(extent: nat, side: nat): (n: nat)
    requires 0 < side
    ensures 1 <= n
    ensures extent < n * side
    ensures (n - 1) * side <= extent
  {
    assert extent == (extent / side) * side + extent % side;
    extent / side + 1
  }

  /** The image size and the tile size of one partition. */
  datatype Grid = Grid(width: nat, height: nat, tileWidth: nat, tileHeight: nat)

  predicate Ok(g: Grid) { 0 < g.tileWidth && 0 < g.tileHeight }

  /** The grid `WorkQueueInit` sets up: both tile sides are computed from the
      WIDTH, so tiles are square whatever the height. */
  function GridFor(width: nat, height: nat, threadCount: nat): (g: Grid)
    ensures Ok(g)
    ensures g.width == width && g.height == height
    ensures g.tileWidth == g.tileHeight
    ensures g.tileWidth == TileSide(width, threadCount)
  {
    Grid(width, height, TileSide(width, threadCount), TileSide(width, threadCount))
  }

  /** `TileCountX`: the number of tile columns, enough to reach past the width. */
  function CountX(g: Grid): (n: nat)
    requires Ok(g)
    ensures 1 <= n && g.width < n * g.tileWidth && (n - 1) * g.tileWidth <= g.width
  {
    TilesAcross(g.width, g.tileWidth)
  }

  /** `TileCountY`: the number of tile rows, enough to reach past the height. */
  function CountY(g: Grid): (n: nat)
    requires Ok(g)
    ensures 1 <= n && g.height < n * g.tileHeight && (n - 1) * g.tileHeight <= g.height
  {
    TilesAcross(g.height, g.tileHeight)
  }

  /** `TileCount`: one tile per column and row pair, so at least one tile and
      at least as many as there are columns or rows. */
  function TileCount(g: Grid): (n: nat)
    requires Ok(g)
    ensures 1 <= n && CountX(g) <= n && CountY(g) <= n
  {
    MulMonotone(1, CountY(g), CountX(g));
    MulMonotone(1, CountX(g), CountY(g));
    CountX(g) * CountY(g)
  }

  /** Tile number `i`, in row-major order: column `i % CountX`, row `i / CountX`. */
  function TileAt(g: Grid, i: nat): (t: Tile)
    requires Ok(g)
    ensures t.minX < t.maxX && t.minY < t.maxY
  {
    var px, py := i % CountX(g), i / CountX(g);
    MulMonotone(0, px, g.tileWidth);
    MulMonotone(0, py, g.tileHeight);
    Tile(px * g.tileWidth, py * g.tileHeight,
         px * g.tileWidth + g.tileWidth, py * g.tileHeight + g.tileHeight)
  }

  /** The whole tile list, in the order the source fills its array. */
  function Partition(g: Grid): (tiles: seq<Tile>)
    requires Ok(g)
    ensures |tiles| == TileCount(g)
  {
    seq(TileCount(g), i requires 0 <= i => TileAt(g, i))
  }

  predicate Contains(t: Tile, x: nat, y: nat)
  {
    t.minX <= x < t.maxX && t.minY <= y < t.maxY
  }

  /** The part of `t` a renderer touches: `t` cut down to `[0,width) x [0,height)`. */
  predicate InClamped(t: Tile, width: nat, height: nat, x: nat, y: nat)
  {
    Contains(t, x, y) && x < width && y < height
  }

  /** The index of the tile whose rectangle holds pixel `(x, y)`. */
  function IndexOf(g: Grid, x: nat, y: nat): nat
    requires Ok(g)
  {
    MulMonotone(0, y / g.tileHeight, CountX(g));
    (y / g.tileHeight) * CountX(g) + x / g.tileWidth
  }

  /** The tiles reach past the image on both axes. */
  lemma Spans(g: Grid)
    requires Ok(g)
    ensures g.width < CountX(g) * g.tileWidth
    ensures g.height < CountY(g) * g.tileHeight
    ensures TileCount(g) == (g.width / g.tileWidth + 1) * (g.height / g.tileHeight + 1)
  {
  }

  /** A coordinate below `extent` falls in one of the `TilesAcross` slots. */
  lemma SlotBelow(v: nat, extent: nat, side: nat)
    requires 0 < side && v < extent
    ensures v / side < TilesAcross(extent, side)
  {
  }

  /** Every pixel of the image is covered: the tile `IndexOf` names exists and
      holds the pixel. */
  lemma {:induction false} Covers(g: Grid, x: nat, y: nat)
    requires Ok(g) && x < g.width && y < g.height
    ensures IndexOf(g, x, y) < TileCount(g)
    ensures Contains(TileAt(g, IndexOf(g, x, y)), x, y)
  {
    var cx, tw, th := CountX(g), g.tileWidth, g.tileHeight;
    var px, py := x / tw, y / th;
    SlotBelow(x, g.width, tw);
    SlotBelow(y, g.height, th);
    var i := IndexOf(g, x, y);
    DivModUnique(i, cx, py, px);
    MulMonotone(py + 1, CountY(g), cx);
    assert (py + 1) * cx == py * cx + cx;
    assert x == px * tw + x % tw;
    assert y == py * th + y % th;
  }

  /** A tile holding pixel `(x, y)` is the one `IndexOf` names. */
  lemma {:induction false} OnlyTile(g: Grid, i: nat, x: nat, y: nat)
    requires Ok(g) && Contains(TileAt(g, i), x, y)
    ensures i == IndexOf(g, x, y)
  {
    var cx, tw, th := CountX(g), g.tileWidth, g.tileHeight;
    var px, py := i % cx, i / cx;
    DivModUnique(x, tw, px, x - px * tw);
    DivModUnique(y, th, py, y - py * th);
    assert i == py * cx + px;
  }

  /** Distinct tiles have no pixel in common. */
  lemma {:induction false} Disjoint(g: Grid, i: nat, j: nat)
    requires Ok(g) && i != j
    ensures forall x: nat, y: nat :: !(Contains(TileAt(g, i), x, y) && Contains(TileAt(g, j), x, y))
  {
    forall x: nat, y: nat | Contains(TileAt(g, i), x, y) && Contains(TileAt(g, j), x, y)
      ensures false
    {
      OnlyTile(g, i, x, y);
      OnlyTile(g, j, x, y);
    }
  }

  /** Every pixel of the image lies in exactly one tile of the partition, and
      its clamped part holds the same pixels. */
  lemma {:induction false} ExactlyOneTile(g: Grid, x: nat, y: nat)
    requires Ok(g) && x < g.width && y < g.height
    ensures IndexOf(g, x, y) < TileCount(g)
    ensures forall i: nat :: i < TileCount(g) ==>
      (InClamped(TileAt(g, i), g.width, g.height, x, y) <==> i == IndexOf(g, x, y))
  {
    Covers(g, x, y);
    forall i: nat | i < TileCount(g) && Contains(TileAt(g, i), x, y)
      ensures i == IndexOf(g, x, y)
    {
      OnlyTile(g, i, x, y);
    }
  }

  /** At most 6554 tiles of side 10 or more fit along an axis below 0x10000. */
  lemma AxisBound(extent: nat, side: nat)
    requires 10 <= side && extent <= 0xFFFF
    ensures TilesAcross(extent, side) <= 6554
  {
  }

  /** A tile of the partition ends at most one tile side past the image. */
  lemma {:induction false} TileEnds(g: Grid, i: nat)
    requires Ok(g) && i < TileCount(g)
    ensures TileAt(g, i).maxX <= g.width + g.tileWidth
    ensures TileAt(g, i).maxY <= g.height + g.tileHeight
  {
    var cx, cy := CountX(g), CountY(g);
    var px, py := i % cx, i / cx;
    assert i == py * cx + px;
    assert py < cy by {
      if cy <= py {
        MulMonotone(cy, py, cx);
      }
    }
    MulMonotone(px, cx - 1, g.tileWidth);
    MulMonotone(py, cy - 1, g.tileHeight);
  }

  /** Under `Fits`, the tile count and the image size fit in `uint32_t` and
      every tile coordinate fits in `int32_t`, so the source's fixed-width
      arithmetic computes the exact values modelled here. */
  lemma {:induction false} NoOverflow(width: nat, height: nat, threadCount: nat)
    requires Fits(width, height, threadCount)
    ensures width * height < 0x1_0000_0000
    ensures var g := GridFor(width, height, threadCount);
      TileCount(g) < 0x1_0000_0000 &&
      forall i: nat :: i < TileCount(g) ==> TileAt(g, i).maxX < 0x8000_0000 && TileAt(g, i).maxY < 0x8000_0000
  {
    ImageFits(width, height);
    var g := GridFor(width, height, threadCount);
    SideFits(width, threadCount);
    GridBounds(g);
  }

  /** A 0xFFFF x 0xFFFF image has fewer than 2^32 pixels. */
  lemma ImageFits(width: nat, height: nat)
    requires width <= 0xFFFF && height <= 0xFFFF
    ensures width * height < 0x1_0000_0000
  {
    MulMonotone(width, 0xFFFF, height);
    MulMonotone(height, 0xFFFF, 0xFFFF);
  }

  /** The tile side never exceeds `Max(10, width)`. */
  lemma SideFits(width: nat, threadCount: nat)
    requires width <= 0xFFFF
    ensures TileSide(width, threadCount) <= 0xFFFF
  {
  }

  /** The counting half of `NoOverflow`, for any grid of side 10 to 0xFFFF. */
  lemma {:induction false} GridBounds(g: Grid)
    requires 10 <= g.tileWidth <= 0xFFFF && 10 <= g.tileHeight <= 0xFFFF
    requires g.width <= 0xFFFF && g.height <= 0xFFFF
    ensures TileCount(g) < 0x1_0000_0000
    ensures forall i: nat :: i < TileCount(g) ==> TileAt(g, i).maxX < 0x8000_0000 && TileAt(g, i).maxY < 0x8000_0000
  {
    var cx, cy := CountX(g), CountY(g);
    AxisBound(g.width, g.tileWidth);
    AxisBound(g.height, g.tileHeight);
    MulMonotone(cx, 6554, cy);
    MulMonotone(cy, 6554, 6554);
    forall i: nat | i < TileCount(g)
      ensures TileAt(g, i).maxX < 0x8000_0000 && TileAt(g, i).maxY < 0x8000_0000
    {
      TileEnds(g, i);
    }
  }

  /** The two settings `main` and the degenerate case use: 200 x 200 with four
      threads gives 50-pixel tiles in a 5 x 5 grid; with no thread count the
      side is the whole width and the grid is 2 x 2. With a thread count of 0
      no worker is spawned (src/main00.c:136), so this second grid is only
      geometry: nothing claims or renders its tiles. */
  lemma Scenarios()
    ensures TileSide(200, 4) == 50 && TileCount(GridFor(200, 200, 4)) == 25
    ensures TileSide(200, 0) == 200 && TileCount(GridFor(200, 200, 0)) == 4
  {
  }
}
