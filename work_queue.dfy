/** The shared work queue of src/main00.c: the tile array `WorkQueueInit`
    fills, the cursor a claim advances, the image a claimed tile is rendered
    into, and the table of thread handles a worker looks its index up in.
    Each claim is one atomic step (the source takes `WorkAtMutex` around it),
    so any run of the worker pool is a sequence of such steps by arbitrary
    workers. */
module WorkQueues {
  import opened Arith
  import opened Tiling

  /** The source's `uint32_t` pixel. */
  newtype U32 = x: int | 0 <= x < 0x1_0000_0000

  /** A `pthread_t`; handles are only compared for equality. */
  type ThreadHandle = int

  /** The colour a worker gives pixel `(x, y)`: its arguments are the column,
      the row and the worker's index. The source's floating-point formula is
      not modelled; any function may stand in for it. */
  type Shader = (nat, nat, nat) -> U32

  datatype Option<T> = None | Some(value: T)

  /** The "no such worker" result of the handle lookup, `0xFFFFFFFF`. */
  const NoWorker: nat := 0xFFFF_FFFF

  /** Column and row of image cell `k` in a `width`-wide row-major image. */
  function CellX(k: nat, width: nat): nat requires 0 < width { k % width }
  function CellY(k: nat, width: nat): nat requires 0 < width { k / width }

  /** What `n` consecutive claims return when the cursor starts at `cursor`
      and the tiles end at `end`: the tile index under the cursor while one
      is left, then nothing. */
  function Outcomes(cursor: nat, end: nat, n: nat): (r: seq<Option<nat>>)
    ensures |r| == n
    decreases n
  {
    if n == 0 then []
    else if cursor < end then [Some(cursor)] + Outcomes(cursor + 1, end, n - 1)
    else [None] + Outcomes(cursor, end, n - 1)
  }

  /** One claim of a run: the first outcome, and the cursor the rest starts from. */
  lemma OutcomesStep(cursor: nat, end: nat, n: nat)
    requires 0 < n
    ensures Outcomes(cursor, end, n) ==
      [if cursor < end then Some(cursor) else None] +
      Outcomes(if cursor < end then cursor + 1 else cursor, end, n - 1)
  {
  }

  /** Claim number `j` of a run gets tile `cursor + j` if that tile exists. */
  lemma {:induction false} OutcomeAt(cursor: nat, end: nat, n: nat, j: nat)
    requires j < n
    ensures Outcomes(cursor, end, n)[j] == if cursor + j < end then Some(cursor + j) else None
    decreases n
  {
    if j > 0 {
      if cursor < end {
        OutcomeAt(cursor + 1, end, n - 1, j - 1);
      } else {
        OutcomeAt(cursor, end, n - 1, j - 1);
      }
    }
  }

  /** A sequence whose entry `j` is the outcome of claim `j` is the run itself. */
  lemma OutcomesAre(cursor: nat, end: nat, claims: seq<Option<nat>>)
    requires forall j :: 0 <= j < |claims| ==> claims[j] == if cursor + j < end then Some(cursor + j) else None
    ensures claims == Outcomes(cursor, end, |claims|)
  {
    forall j | 0 <= j < |claims|
      ensures claims[j] == Outcomes(cursor, end, |claims|)[j]
    {
      OutcomeAt(cursor, end, |claims|, j);
    }
  }

  /** In a run of `n` claims, tile `i` is handed out once if it lies between
      the cursor and the end and the run is long enough to reach it, and
      never otherwise. */
  lemma {:induction false} OutcomeCount(cursor: nat, end: nat, n: nat, i: nat)
    ensures multiset(Outcomes(cursor, end, n))[Some(i)] ==
      if cursor <= i < end && i < cursor + n then 1 else 0
    decreases n
  {
    if n > 0 {
      var head := if cursor < end then Some(cursor) else None;
      var next := if cursor < end then cursor + 1 else cursor;
      OutcomesStep(cursor, end, n);
      assert multiset(Outcomes(cursor, end, n)) == multiset([head]) + multiset(Outcomes(next, end, n - 1));
      assert multiset([head])[Some(i)] == if head == Some(i) then 1 else 0;
      OutcomeCount(next, end, n - 1, i);
    }
  }

  /** Draining a fresh queue of `count` tiles with at least `count` claims,
      made by any workers: claim `j` gets tile `j` while `j < count`, every
      later claim gets nothing, and each tile is handed out exactly once. */
  lemma {:induction false} DrainExactlyOnce(count: nat, n: nat)
    requires count <= n
    ensures forall j :: 0 <= j < n ==> Outcomes(0, count, n)[j] == if j < count then Some(j) else None
    ensures forall i: nat :: multiset(Outcomes(0, count, n))[Some(i)] == if i < count then 1 else 0
  {
    forall j | 0 <= j < n
      ensures Outcomes(0, count, n)[j] == if j < count then Some(j) else None
    {
      OutcomeAt(0, count, n, j);
    }
    forall i: nat
      ensures multiset(Outcomes(0, count, n))[Some(i)] == if i < count then 1 else 0
    {
      OutcomeCount(0, count, n, i);
    }
  }

  /** The fill loop of `WorkQueueInit`: entry `i` of the tile array becomes
      tile `i` of the row-major partition of `g`. */
  method FillTiles(tiles: array<Tile>, g: Grid)
    requires Ok(g) && tiles.Length == TileCount(g)
    modifies tiles
    ensures tiles[..] == Partition(g)
  {
    var countX := CountX(g);
    for i := 0 to tiles.Length
      invariant forall j :: 0 <= j < i ==> tiles[j] == TileAt(g, j)
    {
      var px: nat, py: nat := i % countX, i / countX;
      MulMonotone(0, px, g.tileWidth);
      MulMonotone(0, py, g.tileHeight);
      tiles[i] := Tile(px * g.tileWidth, py * g.tileHeight,
                       px * g.tileWidth + g.tileWidth, py * g.tileHeight + g.tileHeight);
    }
    assert tiles[..] == Partition(g);
  }

  /** Cell `k` of a `w`-wide, `h`-high image holds a pixel of tile `t`,
      clamped to the image, in a row above row `y`. */
  ghost predicate RowsAbove(t: Tile, w: nat, h: nat, k: nat, y: nat)
  {
    0 < w && InClamped(t, w, h, CellX(k, w), CellY(k, w)) && CellY(k, w) < y
  }

  /** Cell `k` holds a pixel of tile `t`, clamped to the image, in row `y`
      left of column `x`. */
  ghost predicate RowPrefix(t: Tile, w: nat, h: nat, k: nat, x: nat, y: nat)
  {
    0 < w && InClamped(t, w, h, CellX(k, w), CellY(k, w)) && CellY(k, w) == y && CellX(k, w) < x
  }

  /** Moving the column cursor past pixel `(x, y)` of the tile adds exactly
      the cell `y * w + x` to the finished part of the row. */
  lemma RowStep(t: Tile, w: nat, h: nat, k: nat, x: nat, y: nat)
    requires x < w && y < h && InClamped(t, w, h, x, y)
    ensures RowPrefix(t, w, h, k, x + 1, y) == (RowPrefix(t, w, h, k, x, y) || k == y * w + x)
  {
    CellIndex(x, y, w, h);
    assert k == (k / w) * w + k % w;
  }

  /** The source's `work_queue`. The pointers `At` and `OnePastLast` into the
      tile array are the indices `at` and `onePastLast`. The ghost fields
      record what the source leaves implicit: which worker claimed each tile
      (`claimedBy`), how often each image cell has been stored to (`writes`)
      and the image as the caller handed it over (`initial`). */
  class WorkQueue {
    const tiles: array<Tile>
    var at: nat
    const onePastLast: nat
    const image: array<U32>
    const threadHandles: array<ThreadHandle>
    const tileCount: nat
    const tileWidth: nat
    const tileHeight: nat
    const width: nat
    const height: nat
    const threadCount: nat
    const shade: Shader

    ghost var claimedBy: seq<nat>
    ghost var writes: seq<nat>
    ghost const initial: seq<U32>

    function Layout(): Grid
    {
      Grid(width, height, tileWidth, tileHeight)
    }

    /** The queue as `WorkQueueInit` leaves it, with the cursor somewhere
        between the first tile and one past the last. */
    ghost predicate Valid()
      reads this`at, this`claimedBy, tiles
    {
      Fits(width, height, threadCount) &&
      Layout() == GridFor(width, height, threadCount) &&
      tileCount == TileCount(Layout()) && onePastLast == tileCount &&
      tiles.Length == tileCount && tiles[..] == Partition(Layout()) &&
      image.Length == width * height && (0 < image.Length ==> 0 < width) &&
      threadHandles.Length == threadCount &&
      at <= tileCount && |claimedBy| == at && |initial| == image.Length
    }

    /** The tile that holds image cell `k`. */
    ghost function Owner(k: nat): nat
      reads this`at, this`claimedBy, tiles
      requires Valid() && k < image.Length
    {
      IndexOf(Layout(), CellX(k, width), CellY(k, width))
    }

    /** Cell `k` has been stored to once, with its claimer's colour, if its
        tile has been claimed, and is untouched otherwise. */
    ghost predicate PaintedCell(k: nat)
      reads this, tiles, image
      requires Valid()
    {
      k < image.Length ==>
        k < |writes| &&
        var i := Owner(k);
        writes[k] == (if i < at then 1 else 0) &&
        image[k] == (if i < at then shade(CellX(k, width), CellY(k, width), claimedBy[i]) else initial[k])
    }

    ghost predicate Painted()
      reads this, tiles, image
      requires Valid()
    {
      |writes| == image.Length && forall k: nat :: PaintedCell(k)
    }

    /** `WorkQueueInit`: the tile side, the tile counts, the tile array filled
        in row-major order, the cursor at the first tile, and a thread-handle
        table of `threadCount` entries. */
    constructor (image: array<U32>, width: nat, height: nat, threadCount: nat, shade: Shader)
      requires Fits(width, height, threadCount)
      requires image.Length == width * height
      ensures Valid() && Painted()
      ensures this.image == image && this.width == width && this.height == height
      ensures this.threadCount == threadCount && this.shade == shade
      ensures tileWidth == tileHeight == TileSide(width, threadCount)
      ensures tileCount == TileCount(Layout())
      ensures tiles[..] == Partition(Layout())
      ensures at == 0 && claimedBy == []
      ensures writes == seq(image.Length, _ => 0) && initial == image[..]
      ensures fresh(tiles) && fresh(threadHandles)
    {
      var tw := Max(10, width / Max(1, threadCount));
      var th := Max(10, width / Max(1, threadCount));
      var countX := width / tw + 1;
      var countY := height / th + 1;
      var count := countX * countY;
      ghost var g := GridFor(width, height, threadCount);
      assert Grid(width, height, tw, th) == g;
      assert countX == CountX(g) && countY == CountY(g) && count == TileCount(g);
      assert 0 < width * height ==> 0 < width;
      tileWidth, tileHeight, tileCount := tw, th, count;
      tiles := new Tile[count];
      at, onePastLast := 0, count;
      this.image, this.width, this.height := image, width, height;
      threadHandles := new ThreadHandle[threadCount];
      this.threadCount, this.shade := threadCount, shade;
      claimedBy, writes, initial := [], seq(image.Length, _ => 0), image[..];
      new;
      FillTiles(tiles, Layout());
      assert tiles[..] == Partition(Layout());
      forall k: nat
        ensures PaintedCell(k)
      {
      }
    }

    /** The locked claim: the tile under the cursor, advancing the cursor by
        one, or nothing once the cursor has reached the end. The tile array
        is never written. `workerId` only feeds the ghost log of claimers. */
    method Claim(ghost workerId: nat) returns (tile: Option<nat>)
      requires Valid()
      modifies this`at, this`claimedBy
      ensures Valid()
      ensures old(at) < onePastLast ==>
        tile == Some(old(at)) && at == old(at) + 1 && claimedBy == old(claimedBy) + [workerId]
      ensures onePastLast <= old(at) ==>
        tile == None && at == old(at) && claimedBy == old(claimedBy)
      ensures tiles[..] == old(tiles[..])
    {
      if at < onePastLast {
        tile := Some(at);
        at := at + 1;
        claimedBy := claimedBy + [workerId];
      } else {
        tile := None;
      }
    }

    /** The outer rendering loop: row by row, every pixel of `t` clamped to
        the image is stored to exactly once, with the colour worker
        `workerId` gives it, and no other cell changes. */
    method FillTile(t: Tile, workerId: nat)
      requires Valid() && |writes| == image.Length
      modifies image, this`writes
      ensures |writes| == image.Length
      ensures forall k: nat :: k < image.Length ==>
        image[k] == if InClamped(t, width, height, CellX(k, width), CellY(k, width))
                    then shade(CellX(k, width), CellY(k, width), workerId) else old(image[k])
      ensures forall k: nat :: k < image.Length ==>
        writes[k] == old(writes[k]) + if InClamped(t, width, height, CellX(k, width), CellY(k, width)) then 1 else 0
    {
      var yEnd := Min(t.maxY, height);
      var y := t.minY;
      while y < yEnd
        invariant t.minY <= y && (y <= yEnd || y == t.minY)
        invariant |writes| == image.Length
        invariant forall k: nat :: k < image.Length ==>
          image[k] == if RowsAbove(t, width, height, k, y) then shade(CellX(k, width), CellY(k, width), workerId) else old(image[k])
        invariant forall k: nat :: k < image.Length ==>
          writes[k] == old(writes[k]) + if RowsAbove(t, width, height, k, y) then 1 else 0
      {
        FillRow(t, y, workerId);
        y := y + 1;
      }
    }

    /** The inner rendering loop, over row `y` of tile `t`: every pixel of
        that row clamped to the image is stored to once, and no other cell
        changes. */
    method FillRow(t: Tile, y: nat, workerId: nat)
      requires image.Length == width * height && |writes| == image.Length
      requires t.minY <= y < Min(t.maxY, height)
      modifies image, this`writes
      ensures |writes| == image.Length
      ensures forall k: nat :: k < image.Length ==>
        image[k] == if RowPrefix(t, width, height, k, t.maxX, y) then shade(CellX(k, width), CellY(k, width), workerId) else old(image[k])
      ensures forall k: nat :: k < image.Length ==>
        writes[k] == old(writes[k]) + if RowPrefix(t, width, height, k, t.maxX, y) then 1 else 0
    {
      var xEnd := Min(t.maxX, width);
      var x := t.minX;
      while x < xEnd
        invariant t.minX <= x && (x <= xEnd || x == t.minX)
        invariant |writes| == image.Length
        invariant forall k: nat :: k < image.Length ==>
          image[k] == if RowPrefix(t, width, height, k, x, y) then shade(CellX(k, width), CellY(k, width), workerId) else old(image[k])
        invariant forall k: nat :: k < image.Length ==>
          writes[k] == old(writes[k]) + if RowPrefix(t, width, height, k, x, y) then 1 else 0
      {
        CellIndex(x, y, width, height);
        var cell := y * width + x;
        forall k: nat | k < image.Length
          ensures RowPrefix(t, width, height, k, x + 1, y) == (RowPrefix(t, width, height, k, x, y) || k == cell)
        {
          RowStep(t, width, height, k, x, y);
        }
        image[cell] := shade(x, y, workerId);
        writes := writes[cell := writes[cell] + 1];
        x := x + 1;
      }
    }

    /** `RenderTile`: claim a tile and, if one was left, render it. The
        painting invariant survives because the claimed tile's clamped pixels
        are exactly the cells it owns. */
    method RenderTile(workerId: nat) returns (acquired: bool)
      requires Valid() && Painted()
      modifies this`at, this`claimedBy, this`writes, image
      ensures Valid() && Painted()
      ensures acquired == (old(at) < tileCount)
      ensures at == if acquired then old(at) + 1 else old(at)
      ensures claimedBy == if acquired then old(claimedBy) + [workerId] else old(claimedBy)
    {
      var tile := Claim(workerId);
      if tile == None {
        return false;
      }
      FillTile(tiles[tile.value], workerId);
      forall k: nat
        ensures PaintedCell(k)
      {
        if k < image.Length {
          CellCoords(k, width, height);
          ExactlyOneTile(Layout(), CellX(k, width), CellY(k, width));
          assert old(PaintedCell(k));
        }
      }
      return true;
    }

    /** Each worker's claim-and-render loop (src/main00.c:92): one worker claims
        and renders until the queue is empty. Every remaining tile goes to it. */
    method Drain(workerId: nat)
      requires Valid() && Painted()
      modifies this`at, this`claimedBy, this`writes, image
      ensures Valid() && Painted()
      ensures at == tileCount
      ensures claimedBy == old(claimedBy) + seq(tileCount - old(at), _ => workerId)
      ensures forall k: nat :: k < image.Length ==> writes[k] == 1
      ensures old(at) == 0 ==> forall k: nat :: k < image.Length ==>
        image[k] == shade(CellX(k, width), CellY(k, width), workerId)
    {
      var more := RenderTile(workerId);
      while more
        invariant Valid() && Painted()
        invariant old(at) <= at
        invariant !more ==> at == tileCount
        invariant claimedBy == old(claimedBy) + seq(at - old(at), _ => workerId)
        decreases tileCount - at + if more then 1 else 0
      {
        more := RenderTile(workerId);
      }
      Complete();
    }

    /** Any interleaving of the pool as a sequence of atomic claim-and-render
        steps, step `j` taken by worker `workers[j]`. `claims` lists the tile
        index each step got, as the source's log line reports it. */
    method RunSchedule(workers: seq<nat>) returns (claims: seq<Option<nat>>)
      requires Valid() && Painted()
      modifies this`at, this`claimedBy, this`writes, image
      ensures Valid() && Painted()
      ensures claims == Outcomes(old(at), tileCount, |workers|)
      ensures at == Min(old(at) + |workers|, tileCount)
      ensures claimedBy == old(claimedBy) + workers[..at - old(at)]
    {
      claims := [];
      var j := 0;
      ghost var start, log := at, claimedBy;
      while j < |workers|
        invariant j <= |workers|
        invariant Valid() && Painted()
        invariant start <= at && at == Min(start + j, tileCount)
        invariant claimedBy == log + workers[..at - start]
        invariant |claims| == j
        invariant forall i :: 0 <= i < j ==> claims[i] == if start + i < tileCount then Some(start + i) else None
      {
        var before := at;
        var acquired := RenderTile(workers[j]);
        var outcome := if acquired then Some(before) else None;
        if acquired {
          assert workers[..at - start] == workers[..before - start] + [workers[j]];
        }
        claims := claims + [outcome];
        j := j + 1;
      }
      OutcomesAre(start, tileCount, claims);
    }

    /** Once the cursor has reached the end, every image cell has been stored
        to exactly once, with the colour of the worker that claimed its tile. */
    lemma Complete()
      requires Valid() && Painted() && at == tileCount
      ensures forall k: nat :: k < image.Length ==>
        Owner(k) < |claimedBy| && writes[k] == 1 &&
        image[k] == shade(CellX(k, width), CellY(k, width), claimedBy[Owner(k)])
    {
      forall k: nat | k < image.Length
        ensures Owner(k) < |claimedBy| && writes[k] == 1 &&
          image[k] == shade(CellX(k, width), CellY(k, width), claimedBy[Owner(k)])
      {
        CellCoords(k, width, height);
        Covers(Layout(), CellX(k, width), CellY(k, width));
        assert PaintedCell(k);
      }
    }

    /** The store `pthread_create` makes into slot `index` of the handle table
        when it spawns worker `index`. */
    method RecordThreadHandle(index: nat, handle: ThreadHandle)
      requires Valid() && index < threadCount
      modifies threadHandles
      ensures Valid()
      ensures threadHandles[..] == old(threadHandles[..])[index := handle]
    {
      threadHandles[index] := handle;
    }

    /** `WorkGetWorkerIndexFromThreadHandle`: the first slot of the handle
        table that holds `threadId`, or `NoWorker` if none does. */
    method WorkerIndexFromThreadHandle(threadId: ThreadHandle) returns (index: nat)
      requires Valid()
      ensures index == NoWorker <==> forall j :: 0 <= j < threadCount ==> threadHandles[j] != threadId
      ensures index != NoWorker ==>
        index < threadCount && threadHandles[index] == threadId &&
        forall j :: 0 <= j < index ==> threadHandles[j] != threadId
    {
      index := NoWorker;
      var i := 0;
      while i < threadCount
        invariant i <= threadCount
        invariant index == NoWorker
        invariant forall j :: 0 <= j < i ==> threadHandles[j] != threadId
      {
        if threadId == threadHandles[i] {
          index := i;
          break;
        }
        i := i + 1;
      }
    }
  }
}
