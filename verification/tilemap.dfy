/**
 * The example game's destructible tilemap: a uniform spatial-partition grid
 * whose cells hold actor handles, and the tile list that `explode`,
 * `getTileAt` and `killTile` work on. Tiles live in a store and are named by
 * their index there (the tile allocator's node); the random cave holes of
 * `generate` are a parameter.
 */
module Tilemap {
  import opened Wrappers
  import opened Actors

  const MaxElementsPerCell: nat := 128 * 4

  /** A grid cell: its rectangle and the handles of the actors filed under it. */
  datatype Cell = Cell(rect: Rect, actors: seq<nat>)

  /** Cell `insert`: appends while there is room; a full cell is left as it is. */
  function CellInsert(c: Cell, actor: nat): (r: Cell)
    ensures r.rect == c.rect && (|c.actors| <= MaxElementsPerCell ==> |r.actors| <= MaxElementsPerCell)
    ensures |c.actors| + 1 <= MaxElementsPerCell ==> r.actors == c.actors + [actor]
    ensures |c.actors| + 1 > MaxElementsPerCell ==> r == c
  {
    if |c.actors| + 1 <= MaxElementsPerCell then c.(actors := c.actors + [actor]) else c
  }

  /** The position of the first occurrence of `x` in `s`, if any. */
  function FirstIndex(s: seq<nat>, x: nat): (r: Option<nat>)
    ensures r.None? <==> x !in s
    ensures r.Some? ==> r.value < |s| && s[r.value] == x && x !in s[..r.value]
  {
    if s == [] then None
    else if s[0] == x then Some(0)
    else match FirstIndex(s[1..], x)
      case None => None
      case Some(i) => assert s[1..][..i] == s[1..i + 1]; Some(i + 1)
  }

  /**
   * Cell `remove`: the first occurrence is overwritten by the last actor and
   * the count drops by one; an absent actor leaves the cell unchanged.
   */
  function CellRemove(c: Cell, actor: nat): (r: Cell)
    ensures r.rect == c.rect
    ensures multiset(r.actors) == multiset(c.actors) - multiset{actor}
    ensures actor !in c.actors ==> r == c
    ensures actor in c.actors ==> |r.actors| == |c.actors| - 1
  {
    match FirstIndex(c.actors, actor)
    case None => c
    case Some(i) =>
      SwapRemoveSpec(c.actors, i);
      c.(actors := SwapRemove(c.actors, i))
  }

  /** Overwrites position i with the last element (unless i is last) and drops the last slot. */
  function SwapRemove(s: seq<nat>, i: nat): (r: seq<nat>)
    requires i < |s|
    ensures |r| == |s| - 1
  {
    var last := |s| - 1;
    if last - i > 0 then s[i := s[last]][..last] else s[..last]
  }

  /** SwapRemove takes out exactly one copy of s[i] and keeps everything before position i in place. */
  lemma SwapRemoveSpec(s: seq<nat>, i: nat)
    requires i < |s|
    ensures multiset(SwapRemove(s, i)) == multiset(s) - multiset{s[i]}
    ensures SwapRemove(s, i)[..i] == s[..i]
  {
    var last := |s| - 1;
    if last - i > 0 {
      SwapRemoveMiddle(s, i);
    } else {
      assert s == s[..last] + [s[last]];
    }
  }

  lemma SwapRemoveMiddle(s: seq<nat>, i: nat)
    requires i < |s| - 1
    ensures var r := s[i := s[|s| - 1]][..|s| - 1];
      multiset(r) == multiset(s) - multiset{s[i]} && r[..i] == s[..i]
  {
    var last := |s| - 1;
    var a, b := s[..i], s[i + 1..last];
    assert s == a + [s[i]] + b + [s[last]];
    var r := s[i := s[last]][..last];
    assert r == a + [s[last]] + b;
    assert multiset(s) == multiset(a) + multiset{s[i]} + multiset(b) + multiset{s[last]};
    assert multiset(r) == multiset(a) + multiset{s[last]} + multiset(b);
  }

  /** An actor filed at most once is gone from the cell after `remove`. */
  lemma RemoveLeavesNoCopy(c: Cell, actor: nat)
    requires multiset(c.actors)[actor] <= 1
    ensures actor !in CellRemove(c, actor).actors
  {
    var r := CellRemove(c, actor);
    assert multiset(r.actors)[actor] == 0;
  }

  /** Removing what was just inserted into a cell with room gives back the cell's contents. */
  lemma InsertThenRemove(c: Cell, actor: nat)
    requires |c.actors| + 1 <= MaxElementsPerCell
    ensures multiset(CellRemove(CellInsert(c, actor), actor).actors) == multiset(c.actors)
  {
  }

  // ---------------------------------------------------------------- grid

  datatype Grid = Grid(root: Rect, cells: seq<Cell>)

  /** The rectangle of the cell in row `row` and column `column`. */
  function CellRect(x: real, y: real, cellWidth: nat, cellHeight: nat, row: nat, column: nat): Rect
  {
    Rect(x + (column * cellWidth) as real, y + (row * cellHeight) as real, cellWidth as real, cellHeight as real)
  }

  /**
   * Grid `init`: the source asserts that every size is positive, then lays
   * out rowNum × columnNum empty cells row by row.
   */
  function GridInit(x: real, y: real, columns: nat, rows: nat, cellWidth: nat, cellHeight: nat): (g: Grid)
    requires columns > 0 && rows > 0 && cellWidth > 0 && cellHeight > 0
    ensures g.root == Rect(x, y, (cellWidth * columns) as real, (cellHeight * rows) as real)
    ensures |g.cells| == columns * rows
    ensures forall i :: 0 <= i < |g.cells| ==> g.cells[i].actors == []
  {
    Grid(Rect(x, y, (cellWidth * columns) as real, (cellHeight * rows) as real),
         seq(columns * rows, i requires 0 <= i < columns * rows =>
           Cell(CellRect(x, y, cellWidth, cellHeight, i / columns, i % columns), [])))
  }

  /** Row-major layout: the cell in row r, column c sits at (x + c·cellWidth, y + r·cellHeight) and lies inside the root. */
  lemma GridCellAt(x: real, y: real, columns: nat, rows: nat, cellWidth: nat, cellHeight: nat, r: nat, c: nat)
    requires columns > 0 && rows > 0 && cellWidth > 0 && cellHeight > 0
    requires r < rows && c < columns
    ensures var g := GridInit(x, y, columns, rows, cellWidth, cellHeight);
      r * columns + c < |g.cells|
      && g.cells[r * columns + c].rect == CellRect(x, y, cellWidth, cellHeight, r, c)
      && Inside(g.cells[r * columns + c].rect, g.root)
  {
    var i := r * columns + c;
    ModUnique(i, columns, r, c);
    MulGap(r, rows, columns);
    assert i < rows * columns;
    GridCellRect(x, y, columns, rows, cellWidth, cellHeight, i);
    CellInsideRoot(x, y, columns, rows, cellWidth, cellHeight, r, c);
  }

  /** A cell of the grid lies inside the grid's root rectangle. */
  lemma CellInsideRoot(x: real, y: real, columns: nat, rows: nat, cellWidth: nat, cellHeight: nat, r: nat, c: nat)
    requires r < rows && c < columns
    ensures Inside(CellRect(x, y, cellWidth, cellHeight, r, c), Rect(x, y, (cellWidth * columns) as real, (cellHeight * rows) as real))
  {
    MulLe(c + 1, columns, cellWidth);
    MulLe(r + 1, rows, cellHeight);
    assert (c * cellWidth) as real + cellWidth as real == ((c + 1) * cellWidth) as real;
    assert (r * cellHeight) as real + cellHeight as real == ((r + 1) * cellHeight) as real;
  }

  lemma MulLe(a: nat, b: nat, n: nat)
    requires a <= b
    ensures a * n <= b * n && b * n == n * b
  {
  }

  predicate Increasing(s: seq<nat>)
  {
    forall i, j :: 0 <= i < j < |s| ==> s[i] < s[j]
  }

  /** The indices below n of the cells the rect overlaps, in increasing order. */
  function OverlappingCells(cells: seq<Cell>, rect: Rect, n: nat): (r: seq<nat>)
    requires n <= |cells|
    ensures Increasing(r)
    ensures forall k :: 0 <= k < |r| ==> r[k] < n && Overlap(cells[r[k]].rect, rect)
    ensures forall i :: 0 <= i < n && Overlap(cells[i].rect, rect) ==> i in r
  {
    if n == 0 then []
    else
      var front := OverlappingCells(cells, rect, n - 1);
      if Overlap(cells[n - 1].rect, rect) then front + [n - 1] else front
  }

  /**
   * `getCells`: nothing for a rect that misses the root; otherwise every
   * cell the rect overlaps, in cell order, and whether there was one.
   */
  function GetCells(g: Grid, rect: Rect): (r: (bool, seq<nat>))
    ensures !Overlap(g.root, rect) ==> r == (false, [])
    ensures r.0 <==> |r.1| > 0
    ensures Increasing(r.1) && forall k :: 0 <= k < |r.1| ==> r.1[k] < |g.cells| && Overlap(g.cells[r.1[k]].rect, rect)
    ensures Overlap(g.root, rect) ==> forall i :: 0 <= i < |g.cells| && Overlap(g.cells[i].rect, rect) ==> i in r.1
  {
    if Overlap(g.root, rect) then
      var found := OverlappingCells(g.cells, rect, |g.cells|);
      (|found| > 0, found)
    else (false, [])
  }

  /**
   * The callers of `getCells` pass a buffer of four cells: for a grid laid
   * out by `init` and a rect no larger than one cell, at most four cells
   * are listed.
   */
  lemma AtMostFourCells(x: real, y: real, columns: nat, rows: nat, cellWidth: nat, cellHeight: nat, rect: Rect)
    requires columns > 0 && rows > 0 && cellWidth > 0 && cellHeight > 0
    requires 0.0 <= rect.width <= cellWidth as real && 0.0 <= rect.height <= cellHeight as real
    ensures |GetCells(GridInit(x, y, columns, rows, cellWidth, cellHeight), rect).1| <= 4
  {
    var g := GridInit(x, y, columns, rows, cellWidth, cellHeight);
    var found := GetCells(g, rect).1;
    var c0 := ((rect.x - x) / cellWidth as real).Floor;
    var r0 := ((rect.y - y) / cellHeight as real).Floor;
    var four: set<int> := {r0 * columns + c0, r0 * columns + c0 + 1, (r0 + 1) * columns + c0, (r0 + 1) * columns + c0 + 1};
    forall k | 0 <= k < |found| ensures found[k] as int in four {
      CellNearRect(x, y, columns, rows, cellWidth, cellHeight, rect, found[k]);
    }
    IncreasingWithin(found, four);
  }

  /** A cell that a rect no larger than a cell overlaps is one of the four around the rect's corner. */
  lemma CellNearRect(x: real, y: real, columns: nat, rows: nat, cellWidth: nat, cellHeight: nat, rect: Rect, i: nat)
    requires columns > 0 && rows > 0 && cellWidth > 0 && cellHeight > 0
    requires 0.0 <= rect.width <= cellWidth as real && 0.0 <= rect.height <= cellHeight as real
    requires i < columns * rows && Overlap(GridInit(x, y, columns, rows, cellWidth, cellHeight).cells[i].rect, rect)
    ensures var c0 := ((rect.x - x) / cellWidth as real).Floor;
      var r0 := ((rect.y - y) / cellHeight as real).Floor;
      i as int in {r0 * columns + c0, r0 * columns + c0 + 1, (r0 + 1) * columns + c0, (r0 + 1) * columns + c0 + 1}
  {
    var row, column := i / columns, i % columns;
    GridCellRect(x, y, columns, rows, cellWidth, cellHeight, i);
    SpanBounds(x, cellWidth, column, rect.x, rect.width);
    SpanBounds(y, cellHeight, row, rect.y, rect.height);
    NearIndex(i, columns, row, column, ((rect.y - y) / cellHeight as real).Floor, ((rect.x - x) / cellWidth as real).Floor);
  }

  lemma GridCellRect(x: real, y: real, columns: nat, rows: nat, cellWidth: nat, cellHeight: nat, i: nat)
    requires columns > 0 && rows > 0 && cellWidth > 0 && cellHeight > 0 && i < columns * rows
    ensures GridInit(x, y, columns, rows, cellWidth, cellHeight).cells[i].rect
      == CellRect(x, y, cellWidth, cellHeight, i / columns, i % columns)
  {
  }

  /** Cell i in row `row` and column `column`, each at most one past (r0, c0), is one of the four cells from (r0, c0). */
  lemma NearIndex(i: nat, columns: nat, row: nat, column: nat, r0: int, c0: int)
    requires columns > 0 && row == i / columns && column == i % columns
    requires r0 <= row <= r0 + 1 && c0 <= column <= c0 + 1
    ensures i as int in {r0 * columns + c0, r0 * columns + c0 + 1, (r0 + 1) * columns + c0, (r0 + 1) * columns + c0 + 1}
  {
    assert i == row * columns + column;
    if row == r0 + 1 {
      assert i == (r0 + 1) * columns + column;
    } else {
      assert i == r0 * columns + column;
    }
  }

  /** A span of `size` starting at `origin + k·size` that meets [lo, lo + len] with len ≤ size puts k at floor((lo - origin) / size) or one more. */
  lemma SpanBounds(origin: real, size: nat, k: nat, lo: real, len: real)
    requires size > 0 && 0.0 <= len <= size as real
    requires origin + (k * size) as real < lo + len && origin + (k * size) as real + size as real > lo
    ensures ((lo - origin) / size as real).Floor <= k <= ((lo - origin) / size as real).Floor + 1
  {
    var s := size as real;
    var t := (lo - origin) / s;
    IntMulAsReal(k, size);
    DivTimes(lo - origin, s);
    var ks, ts := (k as real) * s, t * s;
    assert ts == lo - origin && (k * size) as real == ks;
    assert ks + s > ts && ks < ts + s;
    FloorLower(t, k, s, ks, ts);
    FloorUpper(t, k, s, ks, ts);
  }

  lemma IntMulAsReal(a: nat, b: nat)
    ensures (a * b) as real == (a as real) * (b as real)
  {
  }

  lemma DivTimes(a: real, s: real)
    requires s > 0.0
    ensures (a / s) * s == a
  {
  }

  lemma FloorLower(t: real, k: nat, s: real, ks: real, ts: real)
    requires s > 0.0 && ks == (k as real) * s && ts == t * s && ks + s > ts
    ensures t.Floor <= k
  {
    if t.Floor > k {
      MulLess((k + 1) as real, t, s);
      assert false;
    }
  }

  lemma FloorUpper(t: real, k: nat, s: real, ks: real, ts: real)
    requires s > 0.0 && ks == (k as real) * s && ts == t * s && ks < ts + s
    ensures k <= t.Floor + 1
  {
    if k > t.Floor + 1 {
      MulLess(t + 1.0, k as real, s);
      assert false;
    }
  }

  lemma MulLess(a: real, b: real, s: real)
    requires a <= b && s > 0.0
    ensures a * s <= b * s
  {
  }

  /** A strictly increasing sequence whose elements all lie in a set is no longer than the set. */
  lemma {:induction false} IncreasingWithin(s: seq<nat>, bound: set<int>)
    requires Increasing(s) && forall k :: 0 <= k < |s| ==> s[k] as int in bound
    ensures |s| <= |bound|
    decreases |s|
  {
    if s != [] {
      var rest := s[1..];
      forall k | 0 <= k < |rest| ensures rest[k] as int in bound - {s[0] as int} {
        assert rest[k] == s[k + 1];
      }
      IncreasingWithin(rest, bound - {s[0] as int});
    }
  }

  /** Cell `insert` or `remove`, as chosen by the flag. */
  function CellUpdate(c: Cell, actor: nat, insert: bool): Cell
  {
    if insert then CellInsert(c, actor) else CellRemove(c, actor)
  }

  /** Applies a cell update to the listed cells; each index appears once. */
  function UpdateCells(cells: seq<Cell>, idx: seq<nat>, actor: nat, insert: bool): (r: seq<Cell>)
    requires Increasing(idx) && forall k :: 0 <= k < |idx| ==> idx[k] < |cells|
    ensures |r| == |cells|
    ensures forall i :: 0 <= i < |cells| ==> r[i] == if i in idx then CellUpdate(cells[i], actor, insert) else cells[i]
    decreases |idx|
  {
    if idx == [] then cells
    else
      var front := idx[..|idx| - 1];
      var last := idx[|idx| - 1];
      assert idx == front + [last];
      var before := UpdateCells(cells, front, actor, insert);
      assert last !in front;
      before[last := CellUpdate(before[last], actor, insert)]
  }

  /** Grid `insert`: files the actor under every cell its rect overlaps. */
  function GridInsert(g: Grid, actor: nat, rect: Rect): (r: Grid)
    ensures r.root == g.root && |r.cells| == |g.cells|
    ensures forall i :: 0 <= i < |g.cells| ==>
      r.cells[i] == if i in GetCells(g, rect).1 then CellUpdate(g.cells[i], actor, true) else g.cells[i]
  {
    var (found, idx) := GetCells(g, rect);
    if found then g.(cells := UpdateCells(g.cells, idx, actor, true)) else g
  }

  /** Grid `remove`: takes the actor out of every cell its rect overlaps. */
  function GridRemove(g: Grid, actor: nat, rect: Rect): (r: Grid)
    ensures r.root == g.root && |r.cells| == |g.cells|
    ensures forall i :: 0 <= i < |g.cells| ==>
      r.cells[i] == if i in GetCells(g, rect).1 then CellUpdate(g.cells[i], actor, false) else g.cells[i]
  {
    var (found, idx) := GetCells(g, rect);
    if found then g.(cells := UpdateCells(g.cells, idx, actor, false)) else g
  }

  /** Removing an actor just inserted with room to spare restores every cell's contents. */
  lemma GridInsertThenRemove(g: Grid, actor: nat, rect: Rect)
    requires forall i :: 0 <= i < |g.cells| ==> |g.cells[i].actors| + 1 <= MaxElementsPerCell
    ensures var r := GridRemove(GridInsert(g, actor, rect), actor, rect);
      |r.cells| == |g.cells|
      && forall i :: 0 <= i < |g.cells| ==> multiset(r.cells[i].actors) == multiset(g.cells[i].actors)
  {
    var g1 := GridInsert(g, actor, rect);
    assert g1.root == g.root;
    forall i | 0 <= i < |g.cells| && g.cells[i].rect == g1.cells[i].rect
      ensures i in GetCells(g1, rect).1 <==> i in GetCells(g, rect).1
    {
    }
    forall i | 0 <= i < |g.cells|
      ensures multiset(GridRemove(g1, actor, rect).cells[i].actors) == multiset(g.cells[i].actors)
    {
      if i in GetCells(g, rect).1 {
        InsertThenRemove(g.cells[i], actor);
      }
    }
  }

  // --------------------------------------------------------------- tiles

  const TileSize: nat := 40

  datatype Tile = Tile(rect: Rect, id: nat, uid: nat, alive: bool, life: real)

  /**
   * NcTilemap. `tiles` is the tile allocator's store (a tile is named by its
   * index), `active` the tile list in insertion order.
   */
  datatype Tilemap = Tilemap(grid: Grid, tiles: seq<Tile>, active: seq<nat>, uidCount: nat, width: real, height: real)
  {
    /** Active handles name stored tiles, and uids grow strictly along the list and stay below the counter. */
    predicate Valid() {
      (forall k :: 0 <= k < |active| ==> active[k] < |tiles| && tiles[active[k]].uid < uidCount)
      && (forall i, j :: 0 <= i < j < |active| ==> tiles[active[i]].uid < tiles[active[j]].uid)
    }
  }

  /** `init`: an empty map with no uids handed out. */
  function InitTilemap(): (m: Tilemap)
    ensures m.Valid() && m.active == [] && m.uidCount == 0 && m.width == 0.0 && m.height == 0.0
  {
    Tilemap(Grid(Rect(0.0, 0.0, 0.0, 0.0), []), [], [], 0, 0.0, 0.0)
  }

  lemma ValidDistinct(m: Tilemap, i: nat, j: nat)
    requires m.Valid() && i < |m.active| && j < |m.active| && i != j
    ensures m.active[i] != m.active[j]
  {
  }

  /**
   * `addTile`: the tile comes alive with life 1 and the next uid, joins the
   * end of the tile list and is filed in the grid.
   */
  function AddTile(m: Tilemap, rect: Rect, id: nat): (r: Tilemap)
    requires m.Valid()
    ensures r.Valid() && r.uidCount == m.uidCount + 1 && r.width == m.width && r.height == m.height
    ensures r.tiles == m.tiles + [Tile(rect, id, m.uidCount, true, 1.0)] && r.active == m.active + [|m.tiles|]
    ensures forall k :: 0 <= k < |m.active| ==> r.tiles[r.active[k]].uid < r.tiles[|m.tiles|].uid
    ensures r.grid == GridInsert(m.grid, |m.tiles|, rect)
  {
    var h := |m.tiles|;
    m.(tiles := m.tiles + [Tile(rect, id, m.uidCount, true, 1.0)], active := m.active + [h],
       uidCount := m.uidCount + 1, grid := GridInsert(m.grid, h, rect))
  }

  /** A tile specification: where a tile goes and which id it gets. */
  datatype TileSpec = TileSpec(rect: Rect, id: nat)

  /**
   * r is m with one new live tile per specification appended, in order: the
   * k-th gets the next handle, the k-th uid after m's counter, and joins the
   * end of the list; nothing already there changes.
   */
  predicate Appended(m: Tilemap, specs: seq<TileSpec>, r: Tilemap)
  {
    r.uidCount == m.uidCount + |specs| && r.width == m.width && r.height == m.height
    && |r.tiles| == |m.tiles| + |specs| && r.tiles[..|m.tiles|] == m.tiles
    && |r.active| == |m.active| + |specs| && r.active[..|m.active|] == m.active
    && (forall j :: |m.active| <= j < |r.active| ==> r.active[j] == |m.tiles| + (j - |m.active|))
    && forall k :: 0 <= k < |specs| ==> r.tiles[|m.tiles| + k] == Tile(specs[k].rect, specs[k].id, m.uidCount + k, true, 1.0)
  }

  /** `addTile` for each specification in turn. */
  function AddTiles(m: Tilemap, specs: seq<TileSpec>): (r: Tilemap)
    requires m.Valid()
    ensures r.Valid() && Appended(m, specs, r)
    decreases |specs|
  {
    if specs == [] then m
    else
      var n := |specs| - 1;
      var before := AddTiles(m, specs[..n]);
      var r := AddTile(before, specs[n].rect, specs[n].id);
      AppendedStep(m, specs, before, r);
      r
  }

  lemma AppendedStep(m: Tilemap, specs: seq<TileSpec>, before: Tilemap, r: Tilemap)
    requires |specs| > 0 && Appended(m, specs[..|specs| - 1], before)
    requires r.uidCount == before.uidCount + 1 && r.width == before.width && r.height == before.height
    requires r.tiles == before.tiles + [Tile(specs[|specs| - 1].rect, specs[|specs| - 1].id, before.uidCount, true, 1.0)]
    requires r.active == before.active + [|before.tiles|]
    ensures Appended(m, specs, r)
  {
    var n := |specs| - 1;
    assert r.tiles[..|m.tiles|] == m.tiles by {
      assert r.tiles[..|m.tiles|] == before.tiles[..|m.tiles|];
    }
    assert r.active[..|m.active|] == m.active by {
      assert r.active[..|m.active|] == before.active[..|m.active|];
    }
    forall j | |m.active| <= j < |r.active|
      ensures r.active[j] == |m.tiles| + (j - |m.active|)
    {
      if j < |before.active| {
        assert r.active[j] == before.active[j];
      }
    }
    forall k | 0 <= k < |specs|
      ensures r.tiles[|m.tiles| + k] == Tile(specs[k].rect, specs[k].id, m.uidCount + k, true, 1.0)
    {
      if k < n {
        assert specs[..n][k] == specs[k];
        assert r.tiles[|m.tiles| + k] == before.tiles[|m.tiles| + k];
      } else {
        assert |m.tiles| + k == |before.tiles|;
      }
    }
  }

  /** `killTile`: a live tile on the list leaves the grid and dies; anything else is a no-op. */
  function KillTile(m: Tilemap, h: nat): (r: Tilemap)
    requires m.Valid() && h < |m.tiles|
    ensures r.Valid() && r.active == m.active && |r.tiles| == |m.tiles| && r.uidCount == m.uidCount
    ensures !m.tiles[h].alive || h !in m.active ==> r == m
    ensures m.tiles[h].alive && h in m.active ==>
      r.tiles == m.tiles[h := m.tiles[h].(alive := false)]
      && r.grid == GridRemove(m.grid, h, m.tiles[h].rect)
  {
    if !m.tiles[h].alive then m
    else if h in m.active then
      m.(grid := GridRemove(m.grid, h, m.tiles[h].rect), tiles := m.tiles[h := m.tiles[h].(alive := false)])
    else m
  }

  /**
   * The closest-point test of `explode` and `getTileAt`: the point of the
   * rect nearest to (x, y) lies within the radius.
   */
  predicate CircleHits(rect: Rect, x: real, y: real, radius: real)
  {
    var cx := MaxR(rect.x, MinR(x, rect.x + rect.width));
    var cy := MaxR(rect.y, MinR(y, rect.y + rect.height));
    (x - cx) * (x - cx) + (y - cy) * (y - cy) <= radius * radius
  }

  /** A centre on or inside the rect always hits, whatever the radius. */
  lemma CentreInsideHits(rect: Rect, x: real, y: real, radius: real)
    requires rect.x <= x <= rect.x + rect.width && rect.y <= y <= rect.y + rect.height
    ensures CircleHits(rect, x, y, radius)
  {
    assert radius * radius >= 0.0 by { SquareNonNegative(radius); }
  }

  lemma SquareNonNegative(a: real)
    ensures a * a >= 0.0
  {
    if a < 0.0 {
      assert a * a == (-a) * (-a);
    }
  }

  /** `explode` and `getTileAt` only consider live tiles whose id is at least 2. */
  predicate Breakable(t: Tile) { t.id >= 2 && t.alive }

  /** One iteration of `explode`'s loop on tile h. */
  function ExplodeStep(m: Tilemap, h: nat, x: real, y: real, radius: real): (r: (Tilemap, bool))
    requires m.Valid() && h in m.active
    ensures r.0.Valid() && r.0.active == m.active && |r.0.tiles| == |m.tiles| && r.0.uidCount == m.uidCount
    ensures forall j :: 0 <= j < |m.tiles| && j != h ==> r.0.tiles[j] == m.tiles[j]
    ensures r.0.tiles[h] == m.tiles[h].(alive := m.tiles[h].alive && !(Breakable(m.tiles[h]) && CircleHits(m.tiles[h].rect, x, y, radius)))
    ensures r.1 <==> Breakable(m.tiles[h]) && CircleHits(m.tiles[h].rect, x, y, radius)
    ensures r.1 ==> r.0.grid == GridRemove(m.grid, h, m.tiles[h].rect)
    ensures !r.1 ==> r.0 == m
  {
    if Breakable(m.tiles[h]) && CircleHits(m.tiles[h].rect, x, y, radius) then (KillTile(m, h), true) else (m, false)
  }

  /** `explode` over the first n tiles of the list: kills each breakable tile the circle hits. */
  function ExplodeUpTo(m: Tilemap, x: real, y: real, radius: real, n: nat): (r: (Tilemap, bool))
    requires m.Valid() && n <= |m.active|
    ensures r.0.Valid() && r.0.active == m.active && |r.0.tiles| == |m.tiles| && r.0.uidCount == m.uidCount
    ensures forall h :: 0 <= h < |m.tiles| && h !in m.active[..n] ==> r.0.tiles[h] == m.tiles[h]
    ensures forall k :: 0 <= k < n ==> r.0.tiles[m.active[k]] == Exploded(m.tiles[m.active[k]], x, y, radius)
    ensures r.1 <==> exists k :: 0 <= k < n && Breakable(m.tiles[m.active[k]]) && CircleHits(m.tiles[m.active[k]].rect, x, y, radius)
    ensures SameLayout(r.0.grid, m.grid)
    ensures forall i :: 0 <= i < |m.grid.cells| ==>
      multiset(r.0.grid.cells[i].actors) == multiset(m.grid.cells[i].actors) - multiset(KilledUnder(m, x, y, radius, n, i))
    ensures !r.1 ==> r.0 == m
    decreases n
  {
    if n == 0 then
      assert forall i :: KilledUnder(m, x, y, radius, 0, i) == {};
      (m, false)
    else
      var (before, hitBefore) := ExplodeUpTo(m, x, y, radius, n - 1);
      var (after, hit) := ExplodeStep(before, m.active[n - 1], x, y, radius);
      ExplodeUpToStep(m, x, y, radius, n, before, hitBefore, after, hit);
      ExplodeGridStep(m, x, y, radius, n, before, after, hit);
      (after, hitBefore || hit)
  }

  /** The inductive step of ExplodeUpTo: the n-th tile of the list is handled after the first n - 1. */
  lemma ExplodeUpToStep(m: Tilemap, x: real, y: real, radius: real, n: nat, before: Tilemap, hitBefore: bool, after: Tilemap, hit: bool)
    requires m.Valid() && 0 < n <= |m.active|
    requires before.active == m.active && |before.tiles| == |m.tiles|
    requires forall h :: 0 <= h < |m.tiles| && h !in m.active[..n - 1] ==> before.tiles[h] == m.tiles[h]
    requires forall k :: 0 <= k < n - 1 ==> before.tiles[m.active[k]] == Exploded(m.tiles[m.active[k]], x, y, radius)
    requires hitBefore <==> exists k :: 0 <= k < n - 1 && Breakable(m.tiles[m.active[k]]) && CircleHits(m.tiles[m.active[k]].rect, x, y, radius)
    requires |after.tiles| == |before.tiles|
    requires forall j :: 0 <= j < |before.tiles| && j != m.active[n - 1] ==> after.tiles[j] == before.tiles[j]
    requires var h := m.active[n - 1];
      after.tiles[h] == before.tiles[h].(alive := before.tiles[h].alive && !(Breakable(before.tiles[h]) && CircleHits(before.tiles[h].rect, x, y, radius)))
      && (hit <==> Breakable(before.tiles[h]) && CircleHits(before.tiles[h].rect, x, y, radius))
    ensures forall h :: 0 <= h < |m.tiles| && h !in m.active[..n] ==> after.tiles[h] == m.tiles[h]
    ensures forall k :: 0 <= k < n ==> after.tiles[m.active[k]] == Exploded(m.tiles[m.active[k]], x, y, radius)
    ensures hitBefore || hit <==> exists k :: 0 <= k < n && Breakable(m.tiles[m.active[k]]) && CircleHits(m.tiles[m.active[k]].rect, x, y, radius)
  {
    var h := m.active[n - 1];
    assert h !in m.active[..n - 1] by {
      forall k | 0 <= k < n - 1 ensures m.active[k] != h { ValidDistinct(m, k, n - 1); }
    }
    assert before.tiles[h] == m.tiles[h];
    assert m.active[..n] == m.active[..n - 1] + [h];
    forall k | 0 <= k < n - 1 ensures m.active[k] != h && m.active[k] in m.active[..n - 1] {
      ValidDistinct(m, k, n - 1);
    }
  }

  /** Two grids with the same root and the same cell rectangles, whatever the cells hold. */
  predicate SameLayout(g: Grid, h: Grid)
  {
    g.root == h.root && |g.cells| == |h.cells| && forall i :: 0 <= i < |g.cells| ==> g.cells[i].rect == h.cells[i].rect
  }

  lemma {:induction false} OverlappingCellsSameLayout(a: seq<Cell>, b: seq<Cell>, rect: Rect, n: nat)
    requires n <= |a| == |b| && forall i :: 0 <= i < |a| ==> a[i].rect == b[i].rect
    ensures OverlappingCells(a, rect, n) == OverlappingCells(b, rect, n)
    decreases n
  {
    if n > 0 {
      OverlappingCellsSameLayout(a, b, rect, n - 1);
    }
  }

  /** `getCells` looks only at the layout, not at the cells' contents. */
  lemma GetCellsSameLayout(g: Grid, h: Grid, rect: Rect)
    requires SameLayout(g, h)
    ensures GetCells(g, rect) == GetCells(h, rect)
  {
    OverlappingCellsSameLayout(g.cells, h.cells, rect, |g.cells|);
  }

  /** The handles among the first n of the list that `explode` kills and that are filed under cell i. */
  function KilledUnder(m: Tilemap, x: real, y: real, radius: real, n: nat, i: nat): set<nat>
    requires m.Valid() && n <= |m.active|
  {
    set k | 0 <= k < n && Breakable(m.tiles[m.active[k]]) && CircleHits(m.tiles[m.active[k]].rect, x, y, radius)
            && i in GetCells(m.grid, m.tiles[m.active[k]].rect).1 :: m.active[k]
  }

  /** The grid half of ExplodeUpTo's inductive step: the n-th tile, if killed, leaves exactly the cells it was filed under. */
  lemma ExplodeGridStep(m: Tilemap, x: real, y: real, radius: real, n: nat, before: Tilemap, after: Tilemap, hit: bool)
    requires m.Valid() && 0 < n <= |m.active| && |before.tiles| == |m.tiles|
    requires forall h :: 0 <= h < |m.tiles| && h !in m.active[..n - 1] ==> before.tiles[h] == m.tiles[h]
    requires SameLayout(before.grid, m.grid)
    requires forall i :: 0 <= i < |m.grid.cells| ==>
      multiset(before.grid.cells[i].actors) == multiset(m.grid.cells[i].actors) - multiset(KilledUnder(m, x, y, radius, n - 1, i))
    requires var h := m.active[n - 1];
      (hit <==> Breakable(before.tiles[h]) && CircleHits(before.tiles[h].rect, x, y, radius))
      && (hit ==> after.grid == GridRemove(before.grid, h, before.tiles[h].rect))
      && (!hit ==> after.grid == before.grid)
    ensures SameLayout(after.grid, m.grid)
    ensures forall i :: 0 <= i < |m.grid.cells| ==>
      multiset(after.grid.cells[i].actors) == multiset(m.grid.cells[i].actors) - multiset(KilledUnder(m, x, y, radius, n, i))
  {
    var h := m.active[n - 1];
    var t := m.tiles[h];
    assert h !in m.active[..n - 1] by {
      forall k | 0 <= k < n - 1 ensures m.active[k] != h { ValidDistinct(m, k, n - 1); }
    }
    assert before.tiles[h] == t;
    GetCellsSameLayout(before.grid, m.grid, t.rect);
    forall i | 0 <= i < |m.grid.cells|
      ensures multiset(after.grid.cells[i].actors) == multiset(m.grid.cells[i].actors) - multiset(KilledUnder(m, x, y, radius, n, i))
    {
      KilledUnderStep(m, x, y, radius, n, i);
      if hit && i in GetCells(m.grid, t.rect).1 {
        MultisetMinusStep(multiset(m.grid.cells[i].actors), KilledUnder(m, x, y, radius, n - 1, i), h);
      }
    }
  }

  /** Extending the list prefix by one adds the n-th handle to the killed set of cell i exactly when it is hit and filed there. */
  lemma KilledUnderStep(m: Tilemap, x: real, y: real, radius: real, n: nat, i: nat)
    requires m.Valid() && 0 < n <= |m.active|
    ensures var h := m.active[n - 1]; var t := m.tiles[h];
      h !in KilledUnder(m, x, y, radius, n - 1, i)
      && KilledUnder(m, x, y, radius, n, i)
         == KilledUnder(m, x, y, radius, n - 1, i)
            + (if Breakable(t) && CircleHits(t.rect, x, y, radius) && i in GetCells(m.grid, t.rect).1 then {h} else {})
  {
    var h := m.active[n - 1];
    forall k | 0 <= k < n - 1 ensures m.active[k] != h { ValidDistinct(m, k, n - 1); }
  }

  /** Taking away a set and then one more element is taking away the set with that element. */
  lemma MultisetMinusStep(a: multiset<nat>, s: set<nat>, h: nat)
    requires h !in s
    ensures a - multiset(s) - multiset{h} == a - multiset(s + {h})
  {
    assert multiset(s + {h}) == multiset(s) + multiset{h};
  }

  /** A tile after `explode`: dead if it was breakable and hit, otherwise as before. */
  function Exploded(t: Tile, x: real, y: real, radius: real): (r: Tile)
    ensures r.alive <==> t.alive && !(Breakable(t) && CircleHits(t.rect, x, y, radius))
    ensures r == t.(alive := r.alive)
  {
    t.(alive := t.alive && !(Breakable(t) && CircleHits(t.rect, x, y, radius)))
  }

  /** `explode`: kills every breakable tile the circle hits and says whether there was one. */
  function Explode(m: Tilemap, x: real, y: real, radius: real): (r: (Tilemap, bool))
    requires m.Valid()
    ensures r.0.Valid() && r.0.active == m.active && |r.0.tiles| == |m.tiles|
    ensures r.1 <==> exists k :: 0 <= k < |m.active| && Breakable(m.tiles[m.active[k]]) && CircleHits(m.tiles[m.active[k]].rect, x, y, radius)
    ensures forall h :: 0 <= h < |m.tiles| && m.tiles[h].id < 2 ==> r.0.tiles[h] == m.tiles[h]
    ensures forall h :: 0 <= h < |m.tiles| ==>
      (r.0.tiles[h].alive <==> m.tiles[h].alive && !(h in m.active && Breakable(m.tiles[h]) && CircleHits(m.tiles[h].rect, x, y, radius)))
    ensures SameLayout(r.0.grid, m.grid)
    ensures forall i :: 0 <= i < |m.grid.cells| ==>
      multiset(r.0.grid.cells[i].actors) == multiset(m.grid.cells[i].actors) - multiset(KilledUnder(m, x, y, radius, |m.active|, i))
    ensures !r.1 ==> r.0 == m
  {
    var r := ExplodeUpTo(m, x, y, radius, |m.active|);
    assert m.active[..|m.active|] == m.active;
    forall h | 0 <= h < |m.tiles| && h in m.active
      ensures r.0.tiles[h] == Exploded(m.tiles[h], x, y, radius)
    {
      var k :| 0 <= k < |m.active| && m.active[k] == h;
    }
    r
  }

  /** The first breakable tile from position k on that lies within radius 1 of (x, y). */
  function TileAtFrom(m: Tilemap, x: real, y: real, k: nat): (r: Option<nat>)
    requires m.Valid() && k <= |m.active|
    ensures r.Some? ==>
      k <= r.value < |m.active| && Breakable(m.tiles[m.active[r.value]]) && CircleHits(m.tiles[m.active[r.value]].rect, x, y, 1.0)
      && forall j :: k <= j < r.value ==> !(Breakable(m.tiles[m.active[j]]) && CircleHits(m.tiles[m.active[j]].rect, x, y, 1.0))
    ensures r.None? ==> forall j :: k <= j < |m.active| ==> !(Breakable(m.tiles[m.active[j]]) && CircleHits(m.tiles[m.active[j]].rect, x, y, 1.0))
    decreases |m.active| - k
  {
    if k == |m.active| then None
    else
      var t := m.tiles[m.active[k]];
      if Breakable(t) && CircleHits(t.rect, x, y, 1.0) then Some(k) else TileAtFrom(m, x, y, k + 1)
  }

  /** `getTileAt`: the first breakable tile on the list within radius 1 of the point, or none. */
  function GetTileAt(m: Tilemap, x: real, y: real): (r: Option<nat>)
    requires m.Valid()
    ensures r.Some? ==> r.value in m.active && Breakable(m.tiles[r.value]) && CircleHits(m.tiles[r.value].rect, x, y, 1.0)
    ensures r.Some? ==> exists k :: 0 <= k < |m.active| && m.active[k] == r.value
                                   && forall j :: 0 <= j < k ==> !(Breakable(m.tiles[m.active[j]]) && CircleHits(m.tiles[m.active[j]].rect, x, y, 1.0))
    ensures r.None? <==> forall j :: 0 <= j < |m.active| ==> !(Breakable(m.tiles[m.active[j]]) && CircleHits(m.tiles[m.active[j]].rect, x, y, 1.0))
  {
    match TileAtFrom(m, x, y, 0)
    case None => None
    case Some(k) => Some(m.active[k])
  }

  /** A tile found by `getTileAt` is one `explode` with radius 1 at the same point kills. */
  lemma GetTileAtIsExploded(m: Tilemap, x: real, y: real)
    requires m.Valid() && GetTileAt(m, x, y).Some?
    ensures var h := GetTileAt(m, x, y).value;
      m.tiles[h].alive && !Explode(m, x, y, 1.0).0.tiles[h].alive && Explode(m, x, y, 1.0).1
  {
  }

  // ------------------------------------------------------------ generate

  /** A cave hole of `generate`: a circle that keeps interior tiles out. */
  datatype Hole = Hole(x: real, y: real, radius: real)

  function TileRect(column: nat, row: nat): Rect
  {
    Rect((TileSize * column) as real, (TileSize * row) as real, TileSize as real, TileSize as real)
  }

  /** The top and bottom wall tiles of the first n columns, top before bottom. */
  function TopAndBottom(height: nat, n: nat): (r: seq<TileSpec>)
    ensures |r| == 2 * n
    decreases n
  {
    if n == 0 then [] else TopAndBottom(height, n - 1) + [TileSpec(TileRect(n - 1, 0), 1), TileSpec(TileRect(n - 1, height), 1)]
  }

  /** The left and right wall tiles of the first n rows. */
  function LeftAndRight(width: nat, n: nat): (r: seq<TileSpec>)
    ensures |r| == 2 * n
    decreases n
  {
    if n == 0 then [] else LeftAndRight(width, n - 1) + [TileSpec(TileRect(0, n - 1), 1), TileSpec(TileRect(width, n - 1), 1)]
  }

  /** The border of a width × height map: columns 0..width on the top and bottom rows, then rows 0..height-1 on both sides. */
  function Walls(width: nat, height: nat): seq<TileSpec>
  {
    TopAndBottom(height, width + 1) + LeftAndRight(width, height)
  }

  /** A tile at column c, row r sits on the border of the map. */
  predicate OnBorder(rect: Rect, width: nat, height: nat)
  {
    exists c: nat, r: nat {:trigger TileRect(c, r)} :: rect == TileRect(c, r) && c <= width && r <= height
      && (c == 0 || c == width || r == 0 || r == height)
  }

  /** Every wall has id 1 and lies on the border; there are 2(width + 1) + 2·height of them. */
  lemma {:induction false} WallsOnBorder(width: nat, height: nat)
    ensures |Walls(width, height)| == 2 * (width + 1) + 2 * height
    ensures forall k :: 0 <= k < |Walls(width, height)| ==>
      Walls(width, height)[k].id == 1 && OnBorder(Walls(width, height)[k].rect, width, height)
  {
    TopAndBottomOnBorder(width, height, width + 1);
    LeftAndRightOnBorder(width, height, height);
  }

  lemma {:induction false} TopAndBottomOnBorder(width: nat, height: nat, n: nat)
    requires n <= width + 1
    ensures forall k :: 0 <= k < |TopAndBottom(height, n)| ==>
      TopAndBottom(height, n)[k].id == 1 && OnBorder(TopAndBottom(height, n)[k].rect, width, height)
    decreases n
  {
    if n > 0 {
      TopAndBottomOnBorder(width, height, n - 1);
      assert OnBorder(TileRect(n - 1, 0), width, height);
      assert OnBorder(TileRect(n - 1, height), width, height);
    }
  }

  lemma {:induction false} LeftAndRightOnBorder(width: nat, height: nat, n: nat)
    requires n <= height
    ensures forall k :: 0 <= k < |LeftAndRight(width, n)| ==>
      LeftAndRight(width, n)[k].id == 1 && OnBorder(LeftAndRight(width, n)[k].rect, width, height)
    decreases n
  {
    if n > 0 {
      LeftAndRightOnBorder(width, height, n - 1);
      assert OnBorder(TileRect(0, n - 1), width, height);
      assert OnBorder(TileRect(width, n - 1), width, height);
    }
  }

  /** The interior tile at (column, row) is created unless some hole reaches it. */
  predicate Carved(holes: seq<Hole>, column: nat, row: nat)
  {
    exists i :: 0 <= i < |holes| && CircleHits(TileRect(column, row), holes[i].x, holes[i].y, holes[i].radius)
  }

  /** Interior tiles of one row for columns 1..n-1, left to right, each with id 2. */
  function InteriorRow(holes: seq<Hole>, row: nat, n: nat): (r: seq<TileSpec>)
    ensures forall k :: 0 <= k < |r| ==> r[k].id == 2
    decreases n
  {
    if n <= 1 then []
    else InteriorRow(holes, row, n - 1) + (if Carved(holes, n - 1, row) then [] else [TileSpec(TileRect(n - 1, row), 2)])
  }

  /** Interior tiles of rows 1..n-1, top to bottom. */
  function Interior(holes: seq<Hole>, width: nat, n: nat): (r: seq<TileSpec>)
    ensures forall k :: 0 <= k < |r| ==> r[k].id == 2
    decreases n
  {
    if n <= 1 then [] else Interior(holes, width, n - 1) + InteriorRow(holes, n - 1, width)
  }

  /** The collision grid `generate` lays over a map: 100 × 100 cells, one more per 50 units of map size. */
  function MapGrid(width: nat, height: nat): (g: Grid)
    ensures g.root.x == 0.0 && g.root.y == 0.0 && g.root.width >= (width * TileSize) as real && g.root.height >= (height * TileSize) as real
  {
    var columns, rows := (width * TileSize) / 50 + 1, (height * TileSize) / 50 + 1;
    assert 100 * columns >= width * TileSize && 100 * rows >= height * TileSize;
    GridInit(0.0, 0.0, columns, rows, 100, 100)
  }

  /**
   * `generate`: clears the tile list, lays a grid of 100 × 100 cells over
   * the map, sets the map size to the tile counts times the tile size, adds
   * the border walls (id 1) and then every interior tile no hole reaches
   * (id 2). The holes are the source's two fixed holes and its random ones.
   */
  function Generate(m: Tilemap, width: nat, height: nat, holes: seq<Hole>): (r: Tilemap)
    requires m.Valid()
    ensures r.Valid() && r.width == (width * TileSize) as real && r.height == (height * TileSize) as real
    ensures |r.active| == 2 * (width + 1) + 2 * height + |Interior(holes, width, height)|
    ensures forall k :: 0 <= k < |r.active| ==> r.active[k] < |r.tiles| && r.tiles[r.active[k]].alive
    ensures forall k :: 0 <= k < 2 * (width + 1) + 2 * height ==>
      r.tiles[r.active[k]].id == 1 && OnBorder(r.tiles[r.active[k]].rect, width, height)
    ensures forall k :: 2 * (width + 1) + 2 * height <= k < |r.active| ==> r.tiles[r.active[k]].id == 2
  {
    var cleared := m.(active := [], grid := MapGrid(width, height), width := (width * TileSize) as real, height := (height * TileSize) as real);
    var walls, inner := Walls(width, height), Interior(holes, width, height);
    WallsOnBorder(width, height);
    var r := AddTiles(cleared, walls + inner);
    LaidOut(cleared, walls, inner, r, width, height);
    r
  }

  /** Adding walls then interior tiles to an empty list lays them out in that order, all alive. */
  lemma LaidOut(m: Tilemap, walls: seq<TileSpec>, inner: seq<TileSpec>, r: Tilemap, width: nat, height: nat)
    requires m.active == [] && Appended(m, walls + inner, r)
    requires forall k :: 0 <= k < |walls| ==> walls[k].id == 1 && OnBorder(walls[k].rect, width, height)
    requires forall k :: 0 <= k < |inner| ==> inner[k].id == 2
    ensures |r.active| == |walls| + |inner|
      && (forall k :: 0 <= k < |r.active| ==> r.active[k] < |r.tiles| && r.tiles[r.active[k]].alive)
      && (forall k :: 0 <= k < |walls| ==> r.tiles[r.active[k]].id == 1 && OnBorder(r.tiles[r.active[k]].rect, width, height))
      && (forall k :: |walls| <= k < |r.active| ==> r.tiles[r.active[k]].id == 2)
  {
    var specs := walls + inner;
    forall k | 0 <= k < |specs|
      ensures r.active[k] == |m.tiles| + k && r.tiles[r.active[k]] == Tile(specs[k].rect, specs[k].id, m.uidCount + k, true, 1.0)
    {
      var spec := specs[k];
      assert |m.active| + k == k;
    }
    forall k | 0 <= k < |walls| ensures specs[k] == walls[k] { }
    forall k | |walls| <= k < |specs| ensures specs[k].id == 2 {
      ConcatIndex(walls, inner, k);
    }
  }

  lemma ConcatIndex<T>(a: seq<T>, b: seq<T>, k: nat)
    requires |a| <= k < |a| + |b|
    ensures (a + b)[k] == b[k - |a|]
  {
  }

  /** Walls survive every explosion: `explode` never touches a tile of id 1. */
  lemma WallsSurviveExplode(m: Tilemap, width: nat, height: nat, holes: seq<Hole>, x: real, y: real, radius: real)
    requires m.Valid()
    ensures var g := Generate(m, width, height, holes);
      forall k :: 0 <= k < 2 * (width + 1) + 2 * height ==> Explode(g, x, y, radius).0.tiles[g.active[k]].alive
  {
  }
}
