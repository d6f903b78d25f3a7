/** Concrete outcomes, stated for every board of a given shape: how full a new
    board is after its first fill, what the chain of one tile does at the head of
    a row moving left, and what a whole left move does to a row `v, v, 2v`. */
module Behaviour {
  import opened Grid
  import opened TileChain
  import opened Mover
  import opened Spawner

  /** A sequence of empty cells counts every cell as empty. */
  lemma {:induction false} AllEmptyCount(s: seq<Cell>)
    requires forall i :: 0 <= i < |s| ==> s[i].None?
    ensures EmptyCount(s) == |s|
  {
    if s != [] {
      AllEmptyCount(s[1..]);
    }
  }

  /** A new engine has `width * height` empty cells. */
  lemma FreshBoardEmpty(width: nat, height: nat)
    ensures EmptyCount(EmptyGrid(width, height).cells) == width * height
  {
    AllEmptyCount(EmptyGrid(width, height).cells);
  }

  /** `fillRandomTiles(amount)` on a new engine fills `amount` cells, or one or
      two when no amount is given, and never more cells than the board has. */
  lemma FreshFill(width: nat, height: nat, amount: nat, rand: nat -> nat)
    requires width * height > 0
    ensures Spawn(EmptyGrid(width, height), amount, rand).filled.Some?
    ensures EmptyCount(Spawn(EmptyGrid(width, height), amount, rand).grid.cells) ==
      width * height - Min(SpawnAmount(amount, rand), width * height)
  {
    FreshBoardEmpty(width, height);
    SpawnSpec(EmptyGrid(width, height), amount, rand);
  }

  /** On the default 4 x 4 board, filling 5 cells leaves 11 empty. */
  lemma DefaultBoardFillFive(rand: nat -> nat)
    ensures EmptyCount(Spawn(EmptyGrid(4, 4), 5, rand).grid.cells) == 11
  {
    FreshFill(4, 4, 5, rand);
  }

  /** On the default 4 x 4 board, a fill without an amount leaves 14 or 15 empty. */
  lemma DefaultBoardFill(rand: nat -> nat)
    ensures EmptyCount(Spawn(EmptyGrid(4, 4), 0, rand).grid.cells) in {14, 15}
  {
    FreshFill(4, 4, 0, rand);
  }

  /** The board and records of a left move after its first `k` visits. */
  function LeftSweep(g: Grid, k: nat): (r: SweepResult)
    requires g.Valid() && k <= g.width * g.height
    ensures r.grid.Valid() && r.grid.width == g.width && r.grid.height == g.height
  {
    Sweep(g, Left, VisitOrder(g, Left), k)
  }

  /** Row `y` of `h` starts with the cells `a`, `b`, `c`. */
  ghost predicate RowHead(h: Grid, y: int, a: Cell, b: Cell, c: Cell)
  {
    h.Valid() && 0 <= y < h.height && 3 <= h.width &&
    h.Get(Pos(0, y)) == Some(a) && h.Get(Pos(1, y)) == Some(b) && h.Get(Pos(2, y)) == Some(c)
  }

  /** Moving left, row `y` is visited from index `k0` on: its head is visited
      at `k0`, and the whole row fits in the visit order from there. */
  ghost predicate LeftRow(g: Grid, y: int, k0: nat)
  {
    g.Valid() && 0 <= y < g.height && 3 <= g.width && k0 + g.width <= g.width * g.height &&
    VisitOrder(g, Left)[k0] == Pos(0, y)
  }

  /** The index at which a left move visits the head of row `y`. */
  lemma LeftRowStart(g: Grid, y: int) returns (k0: nat)
    requires g.Valid() && 0 <= y < g.height && 3 <= g.width
    ensures LeftRow(g, y, k0)
  {
    k0 := Index(g.width, g.height, Pos(0, y));
    PosOfIndex(g.width, g.height, Pos(0, y));
    MulMonotone(y + 1, g.height, g.width);
    MulSucc(y, g.width);
  }

  /** Moving left, the cells are visited row by row: the visits before row `y`
      are on earlier rows, the visits of row `y` run from x = 0 up, and the
      visits after it are on later rows. */
  lemma LeftVisitRow(g: Grid, y: int, k0: nat, k: nat)
    requires LeftRow(g, y, k0) && k < g.width * g.height
    ensures k < k0 ==> VisitOrder(g, Left)[k].y < y
    ensures k0 <= k < k0 + g.width ==> VisitOrder(g, Left)[k] == Pos(k - k0, y)
    ensures k0 + g.width <= k ==> VisitOrder(g, Left)[k].y > y
  {
    var w := g.width;
    assert PosOf(w, g.height, k0) == Pos(0, y);
    assert k0 == y * w;
    var p := VisitOrder(g, Left)[k];
    assert p == PosOf(w, g.height, k);
    assert p.y * w + p.x == k;
    if p.y < y {
      MulMonotone(p.y + 1, y, w);
      MulSucc(p.y, w);
    } else if p.y > y {
      MulMonotone(y + 1, p.y, w);
      MulSucc(y, w);
    }
  }

  /** Moving left, visits of rows other than `y` leave row `y` as it was. */
  lemma LeftOtherRowsKeepRow(g: Grid, y: int, k0: nat, lo: nat, hi: nat, x: int)
    requires LeftRow(g, y, k0) && lo <= hi <= g.width * g.height
    requires hi <= k0 || k0 + g.width <= lo
    ensures LeftSweep(g, hi).grid.Get(Pos(x, y)) == LeftSweep(g, lo).grid.Get(Pos(x, y))
  {
    var order := VisitOrder(g, Left);
    forall k | lo <= k < hi
      ensures order[k] != Pos(x, y) && !Ahead(Left, order[k], Pos(x, y))
    {
      LeftVisitRow(g, y, k0, k);
    }
    SweepKeepsCell(g, Left, order, lo, hi, Pos(x, y));
  }

  /** Moving left, the cells of row `y` from x = 3 on are untouched by every visit
      up to and including that of (2, y). */
  lemma LeftRowTailUntouched(g: Grid, y: int, k0: nat, x: int)
    requires LeftRow(g, y, k0) && 3 <= x
    ensures LeftSweep(g, k0 + 3).grid.Get(Pos(x, y)) == g.Get(Pos(x, y))
  {
    var order := VisitOrder(g, Left);
    forall k | 0 <= k < k0 + 3
      ensures order[k] != Pos(x, y) && !Ahead(Left, order[k], Pos(x, y))
    {
      LeftVisitRow(g, y, k0, k);
    }
    SweepKeepsCell(g, Left, order, 0, k0 + 3, Pos(x, y));
  }

  /** Moving left, visit `k` of the sweep is that of cell (x, y): it runs the
      chain from that cell on the board the earlier visits left. */
  lemma LeftRowStep(g: Grid, y: int, k0: nat, x: nat, k: nat, next: nat)
    requires LeftRow(g, y, k0) && x < g.width && k == k0 + x && next == k + 1
    ensures var c := Chain(LeftSweep(g, k).grid, Pos(x, y), Left);
      LeftSweep(g, next) == SweepResult(c.grid, AddRecord(LeftSweep(g, k).moved, Pos(x, y), c.dest))
  {
    var order := VisitOrder(g, Left);
    LeftVisitRow(g, y, k0, k);
    var prior := Sweep(g, Left, order, k);
    SweepStep(g, Left, order, k, prior.grid, prior.moved, Chain(prior.grid, Pos(x, y), Left));
  }

  /** Moving left, row `y` starts as it did on the board before the move when its
      visits begin, and the visit of its head changes nothing: a tile there is at
      the edge. */
  lemma LeftRowHead(g: Grid, y: int, k0: nat, a: TileValue, b: Cell, c: Cell)
    requires LeftRow(g, y, k0) && RowHead(g, y, Some(a), b, c)
    ensures RowHead(LeftSweep(g, k0 + 1).grid, y, Some(a), b, c)
    ensures LeftSweep(g, k0 + 1).moved == LeftSweep(g, k0).moved
  {
    LeftOtherRowsKeepRow(g, y, k0, 0, k0, 0);
    LeftOtherRowsKeepRow(g, y, k0, 0, k0, 1);
    LeftOtherRowsKeepRow(g, y, k0, 0, k0, 2);
    ChainBlocked(LeftSweep(g, k0).grid, Pos(0, y), Left);
    LeftRowStep(g, y, k0, 0, k0, k0 + 1);
  }

  /** Moving left, a tile next to an equal tile at the head of its row merges
      into it. */
  lemma ChainMergesIntoHead(h: Grid, y: int, v: TileValue, c: Cell)
    requires RowHead(h, y, Some(v), Some(v), c)
    ensures Chain(h, Pos(1, y), Left).dest == Some(Pos(0, y))
    ensures RowHead(Chain(h, Pos(1, y), Left).grid, y, Some(2 * v), None, c)
  {
    assert Chain(h, Pos(1, y), Left) ==
      ChainResult(h.Set(Pos(0, y), Some(2 * v)).Set(Pos(1, y), None), Some(Pos(0, y)));
  }

  /** Moving left, a tile with one empty cell between it and an equal tile at the
      head of its row slides over the gap and merges into it. */
  lemma ChainSlidesIntoHead(h: Grid, y: int, v: TileValue)
    requires RowHead(h, y, Some(v), None, Some(v))
    ensures Chain(h, Pos(2, y), Left).dest == Some(Pos(0, y))
    ensures RowHead(Chain(h, Pos(2, y), Left).grid, y, Some(2 * v), None, None)
  {
    var h2 := h.Set(Pos(1, y), Some(v)).Set(Pos(2, y), None);
    assert Chain(h, Pos(2, y), Left) == Chain(h2, Pos(1, y), Left);
    ChainMergesIntoHead(h2, y, v, None);
  }

  /** Moving left, the visit of (1, y) on a row starting `v, v, 2v`: the tile
      merges into the head, which becomes `2v`. */
  lemma LeftRowFirstMerge(g: Grid, y: int, k0: nat, v: TileValue)
    requires LeftRow(g, y, k0) && RowHead(LeftSweep(g, k0 + 1).grid, y, Some(v), Some(v), Some(2 * v))
    ensures RowHead(LeftSweep(g, k0 + 2).grid, y, Some(2 * v), None, Some(2 * v))
    ensures LeftSweep(g, k0 + 2).moved == LeftSweep(g, k0 + 1).moved + [Record(Pos(1, y), Pos(0, y))]
  {
    ChainMergesIntoHead(LeftSweep(g, k0 + 1).grid, y, v, Some(2 * v));
    LeftRowStep(g, y, k0, 1, k0 + 1, k0 + 2);
  }

  /** Moving left, the visit of (2, y) on a row starting `u, _, u`: the tile
      slides next to the head and merges into it, which becomes `2u`. */
  lemma LeftRowSecondMerge(g: Grid, y: int, k0: nat, u: TileValue)
    requires LeftRow(g, y, k0) && RowHead(LeftSweep(g, k0 + 2).grid, y, Some(u), None, Some(u))
    ensures RowHead(LeftSweep(g, k0 + 3).grid, y, Some(2 * u), None, None)
    ensures LeftSweep(g, k0 + 3).moved == LeftSweep(g, k0 + 2).moved + [Record(Pos(2, y), Pos(0, y))]
  {
    var prior := LeftSweep(g, k0 + 2);
    var c := Chain(prior.grid, Pos(2, y), Left);
    ChainSlidesIntoHead(prior.grid, y, u);
    LeftRowStep(g, y, k0, 2, k0 + 2, k0 + 3);
    assert LeftSweep(g, k0 + 3).grid == c.grid;
  }

  /** Moving left, once (2, y) has been visited, visiting the rest of row `y`
      changes nothing when those cells are still empty. */
  lemma LeftRowTailVisits(g: Grid, y: int, k0: nat)
    requires LeftRow(g, y, k0)
    requires forall x :: 3 <= x < g.width ==> LeftSweep(g, k0 + 3).grid.Get(Pos(x, y)) == Some(None)
    ensures LeftSweep(g, k0 + g.width) == LeftSweep(g, k0 + 3)
  {
    var order := VisitOrder(g, Left);
    forall k | k0 + 3 <= k < k0 + g.width
      ensures Sweep(g, Left, order, k0 + 3).grid.Get(order[k]) == Some(None)
    {
      LeftVisitRow(g, y, k0, k);
    }
    SweepEmptyVisits(g, Left, order, k0 + 3, k0 + g.width);
  }

  /** Moving left, the visits of row `y` on a board whose row `y` is `v, v, 2v`
      followed by empty cells: once they are done, the row is `4v` followed by
      empty cells and both merges are recorded, one after the other. */
  lemma LeftRowVisits(g: Grid, y: int, k0: nat, v: TileValue)
    requires LeftRow(g, y, k0) && RowHead(g, y, Some(v), Some(v), Some(2 * v))
    requires forall x :: 3 <= x < g.width ==> g.Get(Pos(x, y)) == Some(None)
    ensures RowHead(LeftSweep(g, k0 + g.width).grid, y, Some(4 * v), None, None)
    ensures forall x :: 3 <= x < g.width ==> LeftSweep(g, k0 + g.width).grid.Get(Pos(x, y)) == Some(None)
    ensures LeftSweep(g, k0 + g.width).moved ==
      LeftSweep(g, k0).moved + [Record(Pos(1, y), Pos(0, y)), Record(Pos(2, y), Pos(0, y))]
  {
    LeftRowHead(g, y, k0, v, Some(v), Some(2 * v));
    LeftRowFirstMerge(g, y, k0, v);
    LeftRowSecondMerge(g, y, k0, 2 * v);
    forall x | 3 <= x < g.width
      ensures LeftSweep(g, k0 + 3).grid.Get(Pos(x, y)) == Some(None)
    {
      LeftRowTailUntouched(g, y, k0, x);
    }
    LeftRowTailVisits(g, y, k0);
  }

  /** Moving left, the rows after `y` leave row `y` as its own visits left it,
      and only add records after those of the visits so far. */
  lemma LeftLaterRows(g: Grid, y: int, k0: nat)
    requires LeftRow(g, y, k0)
    ensures forall x :: 0 <= x < g.width ==>
      MoveBoard(g, Left).grid.Get(Pos(x, y)) == LeftSweep(g, k0 + g.width).grid.Get(Pos(x, y))
    ensures LeftSweep(g, k0 + g.width).moved <= MoveBoard(g, Left).moved
  {
    var n := g.width * g.height;
    assert MoveBoard(g, Left) == LeftSweep(g, n);
    forall x | 0 <= x < g.width
      ensures LeftSweep(g, n).grid.Get(Pos(x, y)) == LeftSweep(g, k0 + g.width).grid.Get(Pos(x, y))
    {
      LeftOtherRowsKeepRow(g, y, k0, k0 + g.width, n, x);
    }
    SweepGrowsRecords(g, Left, VisitOrder(g, Left), k0 + g.width, n);
  }

  /** Moving left on a board whose row `y` is `v, v, 2v` followed by empty cells,
      the whole move leaves `4v` at the head of that row and every other cell of
      it empty, and records the tile from x = 1 and then the tile from x = 2 as
      ending at the head. */
  lemma MoveMergesRowTwice(g: Grid, y: int, v: TileValue)
    requires g.Valid() && g.width >= 3 && 0 <= y < g.height
    requires g.Get(Pos(0, y)) == Some(Some(v)) && g.Get(Pos(1, y)) == Some(Some(v))
    requires g.Get(Pos(2, y)) == Some(Some(2 * v))
    requires forall x :: 3 <= x < g.width ==> g.Get(Pos(x, y)) == Some(None)
    ensures MoveBoard(g, Left).grid.Get(Pos(0, y)) == Some(Some(4 * v))
    ensures forall x :: 1 <= x < g.width ==> MoveBoard(g, Left).grid.Get(Pos(x, y)) == Some(None)
    ensures exists i :: (0 <= i < |MoveBoard(g, Left).moved| - 1 &&
      MoveBoard(g, Left).moved[i] == Record(Pos(1, y), Pos(0, y)) &&
      MoveBoard(g, Left).moved[i + 1] == Record(Pos(2, y), Pos(0, y)))
  {
    var k0 := LeftRowStart(g, y);
    LeftRowVisits(g, y, k0, v);
    LeftLaterRows(g, y, k0);
    var row := LeftSweep(g, k0 + g.width).moved;
    var i := |LeftSweep(g, k0).moved|;
    assert row[i] == MoveBoard(g, Left).moved[i] && row[i + 1] == MoveBoard(g, Left).moved[i + 1];
  }
}
