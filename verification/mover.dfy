/** One whole move as a function on boards: every cell is visited once, in
    row-major order (reversed for right and down), the tile chain runs from
    each, and a record is kept for each tile that ended elsewhere. */
module Mover {
  import opened Grid
  import opened TileChain

  /** A `{from, to}` pair of `move`, by coordinates. */
  datatype Record = Record(from: Pos, to: Pos)

  datatype SweepResult = SweepResult(grid: Grid, moved: seq<Record>)

  /** Right and down visit the cells in reverse. */
  predicate Reversed(d: Direction)
  {
    d == Right || d == Down
  }

  /** `a` is visited before `b` when moving in direction `d`. */
  predicate Precedes(d: Direction, a: Pos, b: Pos)
  {
    if Reversed(d) then RowMajorLess(b, a) else RowMajorLess(a, b)
  }

  /** The cells of the board in the order `move` visits them. */
  function VisitOrder(g: Grid, d: Direction): (order: seq<Pos>)
    ensures |order| == g.width * g.height
    ensures forall i :: 0 <= i < |order| ==> InBounds(g.width, g.height, order[i])
  {
    seq(g.width * g.height, i requires 0 <= i < g.width * g.height => VisitedAt(g, d, i))
  }

  /** The i-th cell visited. */
  function VisitedAt(g: Grid, d: Direction, i: nat): (p: Pos)
    requires i < g.width * g.height
    ensures InBounds(g.width, g.height, p)
  {
    var n := g.width * g.height;
    PosOf(g.width, g.height, if Reversed(d) then n - 1 - i else i)
  }

  /** The visit order lists every cell of the board, and lists them in the
      direction's order: row-major, reversed for right and down. */
  lemma VisitOrderSpec(g: Grid, d: Direction)
    ensures forall p :: InBounds(g.width, g.height, p) ==> p in VisitOrder(g, d)
    ensures forall i, j :: 0 <= i < j < |VisitOrder(g, d)| ==> Precedes(d, VisitOrder(g, d)[i], VisitOrder(g, d)[j])
  {
    var n := g.width * g.height;
    var order := VisitOrder(g, d);
    forall p | InBounds(g.width, g.height, p)
      ensures p in order
    {
      var k := Index(g.width, g.height, p);
      PosOfIndex(g.width, g.height, p);
      assert order[if Reversed(d) then n - 1 - k else k] == p;
    }
    forall i, j | 0 <= i < j < n
      ensures Precedes(d, order[i], order[j])
    {
      IndexOrder(g.width, g.height, order[i], order[j]);
      IndexOrder(g.width, g.height, order[j], order[i]);
    }
  }

  /** The records after the chain of the tile at `p` ended at `dest`: one more
      when the tile ended elsewhere. */
  function AddRecord(moved: seq<Record>, p: Pos, dest: Option<Pos>): seq<Record>
  {
    if dest.Some? && dest.value != p then moved + [Record(p, dest.value)] else moved
  }

  /** A visit keeps the records so far and adds at most one: a record from `p` to
      the destination exactly when the chain had a destination other than `p`. */
  lemma AddRecordSpec(moved: seq<Record>, p: Pos, dest: Option<Pos>)
    ensures moved <= AddRecord(moved, p, dest)
    ensures |AddRecord(moved, p, dest)| == |moved| + 1 <==> dest.Some? && dest.value != p
    ensures |AddRecord(moved, p, dest)| != |moved| + 1 ==> AddRecord(moved, p, dest) == moved
    ensures |AddRecord(moved, p, dest)| == |moved| + 1 ==> AddRecord(moved, p, dest)[|moved|] == Record(p, dest.value)
  {
  }

  ghost predicate AllInBounds(g: Grid, order: seq<Pos>)
  {
    forall i :: 0 <= i < |order| ==> InBounds(g.width, g.height, order[i])
  }

  /** The board and the records after running the chain from each of the first `k`
      cells of `order`, in turn. */
  function Sweep(g: Grid, d: Direction, order: seq<Pos>, k: nat): (r: SweepResult)
    requires g.Valid() && AllInBounds(g, order) && k <= |order|
    ensures r.grid.Valid() && r.grid.width == g.width && r.grid.height == g.height
  {
    if k == 0 then SweepResult(g, [])
    else
      var prior := Sweep(g, d, order, k - 1);
      var c := Chain(prior.grid, order[k - 1], d);
      SweepResult(c.grid, AddRecord(prior.moved, order[k - 1], c.dest))
  }

  /** Sweeping one more cell runs one more chain, from the board the shorter sweep left. */
  lemma SweepStep(g: Grid, d: Direction, order: seq<Pos>, k: nat, h: Grid, moved: seq<Record>, c: ChainResult)
    requires g.Valid() && AllInBounds(g, order) && k < |order|
    requires Sweep(g, d, order, k) == SweepResult(h, moved)
    requires h.Valid() && InBounds(h.width, h.height, order[k]) && c == Chain(h, order[k], d)
    ensures Sweep(g, d, order, k + 1) == SweepResult(c.grid, AddRecord(moved, order[k], c.dest))
  {
  }

  /** Each visit adds at most one record. */
  lemma {:induction false} SweepRecordCount(g: Grid, d: Direction, order: seq<Pos>, k: nat)
    requires g.Valid() && AllInBounds(g, order) && k <= |order|
    ensures |Sweep(g, d, order, k).moved| <= k
  {
    if k > 0 {
      SweepRecordCount(g, d, order, k - 1);
    }
  }

  /** `move` for a known direction, without the spawn. */
  function MoveBoard(g: Grid, d: Direction): (r: SweepResult)
    requires g.Valid()
    ensures r.grid.Valid() && r.grid.width == g.width && r.grid.height == g.height
    ensures |r.moved| <= g.width * g.height
  {
    SweepRecordCount(g, d, VisitOrder(g, d), g.width * g.height);
    Sweep(g, d, VisitOrder(g, d), g.width * g.height)
  }

  lemma {:induction false} SweepTotal(g: Grid, d: Direction, order: seq<Pos>, k: nat)
    requires g.Valid() && AllInBounds(g, order) && k <= |order|
    ensures Total(Sweep(g, d, order, k).grid.cells) == Total(g.cells)
  {
    if k > 0 {
      SweepTotal(g, d, order, k - 1);
      ChainTotal(Sweep(g, d, order, k - 1).grid, order[k - 1], d);
    }
  }

  lemma {:induction false} SweepEmptyCount(g: Grid, d: Direction, order: seq<Pos>, k: nat)
    requires g.Valid() && AllInBounds(g, order) && k <= |order|
    ensures EmptyCount(Sweep(g, d, order, k).grid.cells) >= EmptyCount(g.cells)
  {
    if k > 0 {
      SweepEmptyCount(g, d, order, k - 1);
      ChainEmptyCount(Sweep(g, d, order, k - 1).grid, order[k - 1], d);
    }
  }

  lemma {:induction false} SweepPowers(g: Grid, d: Direction, order: seq<Pos>, k: nat)
    requires g.Valid() && AllInBounds(g, order) && k <= |order| && AllPowersOfTwo(g.cells)
    ensures AllPowersOfTwo(Sweep(g, d, order, k).grid.cells)
  {
    if k > 0 {
      SweepPowers(g, d, order, k - 1);
      ChainPowers(Sweep(g, d, order, k - 1).grid, order[k - 1], d);
    }
  }

  /** A sweep that records nothing leaves the board as it was. */
  lemma {:induction false} SweepNoRecords(g: Grid, d: Direction, order: seq<Pos>, k: nat)
    requires g.Valid() && AllInBounds(g, order) && k <= |order|
    ensures Sweep(g, d, order, k).moved == [] ==> Sweep(g, d, order, k).grid == g
  {
    if k > 0 {
      SweepNoRecords(g, d, order, k - 1);
      ChainStays(Sweep(g, d, order, k - 1).grid, order[k - 1], d);
    }
  }

  /** After a sweep that recorded a move, at least one cell is empty. */
  lemma {:induction false} SweepLeavesRoom(g: Grid, d: Direction, order: seq<Pos>, k: nat)
    requires g.Valid() && AllInBounds(g, order) && k <= |order|
    ensures Sweep(g, d, order, k).moved != [] ==> EmptyCount(Sweep(g, d, order, k).grid.cells) >= 1
  {
    if k > 0 {
      var prior := Sweep(g, d, order, k - 1);
      var p := order[k - 1];
      var c := Chain(prior.grid, p, d);
      if c.dest.Some? && c.dest.value != p {
        ChainMoves(prior.grid, p, d);
        EmptyCountPositive(c.grid.cells, Index(g.width, g.height, p));
      } else {
        SweepLeavesRoom(g, d, order, k - 1);
        ChainEmptyCount(prior.grid, p, d);
      }
    }
  }

  /** A record made while sweeping the first `k` cells of `order`: it starts at one of
      them, its destination lies ahead of its start, and that destination holds a tile
      on board `g`. */
  predicate RecordFits(g: Grid, d: Direction, order: seq<Pos>, k: nat, rec: Record)
    requires g.Valid() && k <= |order|
  {
    rec.from in order[..k] && Ahead(d, rec.from, rec.to) && HoldsTile(g, rec.to)
  }

  ghost predicate RecordsFit(r: SweepResult, d: Direction, order: seq<Pos>, k: nat)
    requires r.grid.Valid() && k <= |order|
  {
    (forall i :: 0 <= i < |r.moved| ==> RecordFits(r.grid, d, order, k, r.moved[i])) &&
    (forall i, j :: 0 <= i < j < |r.moved| ==> Precedes(d, r.moved[i].from, r.moved[j].from))
  }

  /** Every record of a sweep fits, and the records follow the visit order. */
  lemma {:induction false} SweepRecords(g: Grid, d: Direction, order: seq<Pos>, k: nat)
    requires g.Valid() && AllInBounds(g, order) && k <= |order|
    requires forall i, j :: 0 <= i < j < |order| ==> Precedes(d, order[i], order[j])
    ensures RecordsFit(Sweep(g, d, order, k), d, order, k)
  {
    if k > 0 {
      var prior := Sweep(g, d, order, k - 1);
      var p := order[k - 1];
      SweepRecords(g, d, order, k - 1);
      var c := Chain(prior.grid, p, d);
      PriorRecordsFit(prior, d, order, k, c.grid);
      ChainMoves(prior.grid, p, d);
      var r := Sweep(g, d, order, k);
      if c.dest.Some? && c.dest.value != p {
        assert p == order[..k][k - 1];
        assert RecordFits(c.grid, d, order, k, Record(p, c.dest.value));
      }
    }
  }

  /** The records of the first `k - 1` cells still fit once the chain from cell
      `k - 1` has run, and each of them starts before that cell. */
  lemma PriorRecordsFit(prior: SweepResult, d: Direction, order: seq<Pos>, k: nat, h: Grid)
    requires prior.grid.Valid() && 0 < k <= |order| && InBounds(prior.grid.width, prior.grid.height, order[k - 1])
    requires forall i, j :: 0 <= i < j < |order| ==> Precedes(d, order[i], order[j])
    requires RecordsFit(prior, d, order, k - 1) && h == Chain(prior.grid, order[k - 1], d).grid
    ensures forall i :: 0 <= i < |prior.moved| ==>
      Precedes(d, prior.moved[i].from, order[k - 1]) && RecordFits(h, d, order, k, prior.moved[i])
  {
    var p := order[k - 1];
    assert order[..k] == order[..k - 1] + [p];
    forall i | 0 <= i < |prior.moved|
      ensures Precedes(d, prior.moved[i].from, p)
      ensures RecordFits(h, d, order, k, prior.moved[i])
    {
      var rec := prior.moved[i];
      assert RecordFits(prior.grid, d, order, k - 1, rec);
      var j :| 0 <= j < k - 1 && order[..k - 1][j] == rec.from;
      assert Precedes(d, order[j], order[k - 1]);
      AheadPrecedes(d, rec.from, rec.to);
      if rec.to == p {
        PrecedesAsymmetric(d, rec.from, p);
      }
      ChainKeepsTiles(prior.grid, p, d, rec.to);
    }
  }

  /** A destination ahead of its start is visited before it. */
  lemma AheadPrecedes(d: Direction, p: Pos, t: Pos)
    requires Ahead(d, p, t)
    ensures Precedes(d, t, p)
  {
  }

  lemma PrecedesAsymmetric(d: Direction, a: Pos, b: Pos)
    requires Precedes(d, a, b)
    ensures !Precedes(d, b, a) && a != b
  {
  }

  lemma MoveTotal(g: Grid, d: Direction)
    requires g.Valid()
    ensures Total(MoveBoard(g, d).grid.cells) == Total(g.cells)
  {
    SweepTotal(g, d, VisitOrder(g, d), g.width * g.height);
  }

  lemma MoveEmptyCount(g: Grid, d: Direction)
    requires g.Valid()
    ensures EmptyCount(MoveBoard(g, d).grid.cells) >= EmptyCount(g.cells)
  {
    SweepEmptyCount(g, d, VisitOrder(g, d), g.width * g.height);
  }

  lemma MovePowers(g: Grid, d: Direction)
    requires g.Valid() && AllPowersOfTwo(g.cells)
    ensures AllPowersOfTwo(MoveBoard(g, d).grid.cells)
  {
    SweepPowers(g, d, VisitOrder(g, d), g.width * g.height);
  }

  /** A move with no records changes nothing; a move with a record leaves an empty cell. */
  lemma MoveRecordsAndRoom(g: Grid, d: Direction)
    requires g.Valid()
    ensures MoveBoard(g, d).moved == [] ==> MoveBoard(g, d).grid == g
    ensures MoveBoard(g, d).moved != [] ==> EmptyCount(MoveBoard(g, d).grid.cells) >= 1
  {
    SweepNoRecords(g, d, VisitOrder(g, d), g.width * g.height);
    SweepLeavesRoom(g, d, VisitOrder(g, d), g.width * g.height);
  }

  /** Each record of a move starts on the board, ends at a cell ahead of its start
      that holds a tile after the move, and the records follow the visit order. */
  lemma MoveRecords(g: Grid, d: Direction)
    requires g.Valid()
    ensures forall k :: 0 <= k < |MoveBoard(g, d).moved| ==>
      InBounds(g.width, g.height, MoveBoard(g, d).moved[k].from) &&
      Ahead(d, MoveBoard(g, d).moved[k].from, MoveBoard(g, d).moved[k].to) &&
      HoldsTile(MoveBoard(g, d).grid, MoveBoard(g, d).moved[k].to)
    ensures forall k, l :: 0 <= k < l < |MoveBoard(g, d).moved| ==>
      Precedes(d, MoveBoard(g, d).moved[k].from, MoveBoard(g, d).moved[l].from)
  {
    var order := VisitOrder(g, d);
    var r := MoveBoard(g, d);
    VisitOrderSpec(g, d);
    var n := g.width * g.height;
    SweepRecords(g, d, order, n);
    assert RecordsFit(r, d, order, n);
    assert order[..n] == order;
    forall k | 0 <= k < |r.moved|
      ensures InBounds(g.width, g.height, r.moved[k].from)
    {
      assert RecordFits(r.grid, d, order, n, r.moved[k]);
      var i :| 0 <= i < |order| && order[i] == r.moved[k].from;
    }
  }

  /** A cell that no visited cell has at or behind it in the direction of travel
      keeps its value through the sweep. */
  lemma {:induction false} SweepKeepsCell(g: Grid, d: Direction, order: seq<Pos>, lo: nat, hi: nat, q: Pos)
    requires g.Valid() && AllInBounds(g, order) && lo <= hi <= |order|
    requires forall k :: lo <= k < hi ==> order[k] != q && !Ahead(d, order[k], q)
    ensures Sweep(g, d, order, hi).grid.Get(q) == Sweep(g, d, order, lo).grid.Get(q)
  {
    if lo < hi {
      SweepKeepsCell(g, d, order, lo, hi - 1, q);
      ChainFrame(Sweep(g, d, order, hi - 1).grid, order[hi - 1], d, q);
    }
  }

  /** Visiting cells that are empty changes neither the board nor the records. */
  lemma {:induction false} SweepEmptyVisits(g: Grid, d: Direction, order: seq<Pos>, lo: nat, hi: nat)
    requires g.Valid() && AllInBounds(g, order) && lo <= hi <= |order|
    requires forall k :: lo <= k < hi ==> Sweep(g, d, order, lo).grid.Get(order[k]) == Some(None)
    ensures Sweep(g, d, order, hi) == Sweep(g, d, order, lo)
    decreases hi - lo
  {
    if lo < hi {
      SweepEmptyStep(g, d, order, lo);
      SweepEmptyVisits(g, d, order, lo + 1, hi);
    }
  }

  /** Visiting an empty cell changes neither the board nor the records. */
  lemma SweepEmptyStep(g: Grid, d: Direction, order: seq<Pos>, k: nat)
    requires g.Valid() && AllInBounds(g, order) && k < |order|
    requires Sweep(g, d, order, k).grid.Get(order[k]) == Some(None)
    ensures Sweep(g, d, order, k + 1) == Sweep(g, d, order, k)
  {
    var prior := Sweep(g, d, order, k);
    assert prior.grid.cells[Index(g.width, g.height, order[k])] == None;
  }

  /** Records are only ever added: the records of a shorter sweep begin the longer one's. */
  lemma {:induction false} SweepGrowsRecords(g: Grid, d: Direction, order: seq<Pos>, lo: nat, hi: nat)
    requires g.Valid() && AllInBounds(g, order) && lo <= hi <= |order|
    ensures Sweep(g, d, order, lo).moved <= Sweep(g, d, order, hi).moved
  {
    if lo < hi {
      SweepGrowsRecords(g, d, order, lo, hi - 1);
      var prior := Sweep(g, d, order, hi - 1);
      var c := Chain(prior.grid, order[hi - 1], d);
      var moved := AddRecord(prior.moved, order[hi - 1], c.dest);
      assert Sweep(g, d, order, hi).moved == moved;
      var early := Sweep(g, d, order, lo).moved;
      assert moved[..|prior.moved|] == prior.moved;
      assert moved[..|early|] == prior.moved[..|early|] == early;
    }
  }

  /** Every tile on the board is blocked in direction `d`. */
  ghost predicate Stuck(g: Grid, d: Direction)
    requires g.Valid()
  {
    forall p :: HoldsTile(g, p) ==> Blocked(g, p, g.Get(p).value.value, d)
  }

  lemma {:induction false} SweepStuck(g: Grid, d: Direction, order: seq<Pos>, k: nat)
    requires g.Valid() && AllInBounds(g, order) && k <= |order| && Stuck(g, d)
    ensures Sweep(g, d, order, k) == SweepResult(g, [])
  {
    if k > 0 {
      SweepStuck(g, d, order, k - 1);
      var p := order[k - 1];
      ChainSpec(g, p, d);
      if HoldsTile(g, p) {
        ChainBlocked(g, p, d);
      }
    }
  }

  /** Visiting a tile that can take its first step, when the sweep so far recorded
      nothing, records it. */
  lemma SweepRecordsUnblocked(g: Grid, d: Direction, order: seq<Pos>, j: nat)
    requires g.Valid() && AllInBounds(g, order) && j < |order|
    requires HoldsTile(g, order[j]) && !Blocked(g, order[j], g.Get(order[j]).value.value, d)
    ensures Sweep(g, d, order, j + 1).moved != []
  {
    var p := order[j];
    var prior := Sweep(g, d, order, j);
    SweepGrowsRecords(g, d, order, j, j + 1);
    if prior.moved == [] {
      SweepNoRecords(g, d, order, j);
      ChainBlocked(g, p, d);
      ChainSpec(g, p, d);
      SweepStep(g, d, order, j, g, [], Chain(g, p, d));
    }
  }

  /** A tile that can take its first step makes the move record something. */
  lemma UnblockedTileRecords(g: Grid, d: Direction, p: Pos)
    requires g.Valid() && HoldsTile(g, p) && !Blocked(g, p, g.Get(p).value.value, d)
    ensures MoveBoard(g, d).moved != []
  {
    var order := VisitOrder(g, d);
    var n := g.width * g.height;
    var i := Index(g.width, g.height, p);
    PosOfIndex(g.width, g.height, p);
    var j := if Reversed(d) then n - 1 - i else i;
    assert order[j] == p;
    SweepRecordsUnblocked(g, d, order, j);
    SweepGrowsRecords(g, d, order, j + 1, n);
  }

  /** A move records nothing exactly when every tile is blocked in its direction;
      the board is then unchanged. */
  lemma MoveRecordsIffStuck(g: Grid, d: Direction)
    requires g.Valid()
    ensures MoveBoard(g, d).moved == [] <==> Stuck(g, d)
    ensures Stuck(g, d) ==> MoveBoard(g, d) == SweepResult(g, [])
  {
    if Stuck(g, d) {
      SweepStuck(g, d, VisitOrder(g, d), g.width * g.height);
    } else {
      var p :| HoldsTile(g, p) && !Blocked(g, p, g.Get(p).value.value, d);
      UnblockedTileRecords(g, d, p);
    }
  }

  /** No tile on any of the first `k` cells of `order` has an empty cell directly
      ahead of it. */
  ghost predicate Packed(h: Grid, d: Direction, order: seq<Pos>, k: nat)
    requires h.Valid() && k <= |order|
  {
    forall i :: 0 <= i < k && HoldsTile(h, order[i]) ==> h.Get(Step(d, order[i])) != Some(None)
  }

  /** A chain from `p` keeps a cell visited before `p` packed: a merge lands on an
      already packed tile, a slide stops where it is blocked, and the start it empties
      is not directly ahead of a cell visited earlier. */
  lemma ChainKeepsCellPacked(h: Grid, d: Direction, p: Pos, q: Pos)
    requires h.Valid() && InBounds(h.width, h.height, p) && Precedes(d, q, p)
    requires HoldsTile(h, q) ==> h.Get(Step(d, q)) != Some(None)
    ensures HoldsTile(Chain(h, p, d).grid, q) ==> Chain(h, p, d).grid.Get(Step(d, q)) != Some(None)
  {
    var c := Chain(h, p, d);
    ChainSpec(h, p, d);
    PrecedesAsymmetric(d, q, p);
    if HoldsTile(h, p) && c.dest != Some(p) {
      var t := c.dest.value;
      if q == t {
        assert Ahead(d, p, Step(d, t));
      } else {
        assert h.Get(q) == c.grid.Get(q);
        if Step(d, q) == p {
          AheadPrecedes(d, q, p);
          assert false;
        }
      }
    }
  }

  /** After the chain from `p`, its start is packed: a tile left there is blocked. */
  lemma ChainStartPacked(h: Grid, d: Direction, p: Pos)
    requires h.Valid() && InBounds(h.width, h.height, p)
    ensures HoldsTile(Chain(h, p, d).grid, p) ==> Chain(h, p, d).grid.Get(Step(d, p)) != Some(None)
  {
    ChainSpec(h, p, d);
    if HoldsTile(h, p) {
      ChainBlocked(h, p, d);
    }
  }

  /** The chain from the next cell in a visit order keeps the cells before it packed,
      and leaves its own start packed too. */
  lemma ChainKeepsPacked(h: Grid, d: Direction, order: seq<Pos>, k: nat, h': Grid)
    requires h.Valid() && k < |order| && InBounds(h.width, h.height, order[k])
    requires forall i, j :: 0 <= i < j < |order| ==> Precedes(d, order[i], order[j])
    requires Packed(h, d, order, k) && h' == Chain(h, order[k], d).grid
    ensures Packed(h', d, order, k + 1)
  {
    forall i | 0 <= i < k + 1 && HoldsTile(h', order[i])
      ensures h'.Get(Step(d, order[i])) != Some(None)
    {
      if i < k {
        ChainKeepsCellPacked(h, d, order[k], order[i]);
      } else {
        ChainStartPacked(h, d, order[k]);
      }
    }
  }

  /** After any prefix of the visits, no visited tile has an empty cell directly ahead. */
  lemma {:induction false} SweepPacked(g: Grid, d: Direction, order: seq<Pos>, k: nat)
    requires g.Valid() && AllInBounds(g, order) && k <= |order|
    requires forall i, j :: 0 <= i < j < |order| ==> Precedes(d, order[i], order[j])
    ensures Packed(Sweep(g, d, order, k).grid, d, order, k)
  {
    if k > 0 {
      SweepPacked(g, d, order, k - 1);
      ChainKeepsPacked(Sweep(g, d, order, k - 1).grid, d, order, k - 1, Sweep(g, d, order, k).grid);
    }
  }

  /** After a move every tile has slid as far as it can: the cell directly ahead of
      it is off the board or holds a tile. */
  lemma MovePacked(g: Grid, d: Direction, p: Pos)
    requires g.Valid() && HoldsTile(MoveBoard(g, d).grid, p)
    ensures MoveBoard(g, d).grid.Get(Step(d, p)) != Some(None)
  {
    var order := VisitOrder(g, d);
    var n := g.width * g.height;
    VisitOrderSpec(g, d);
    SweepPacked(g, d, order, n);
    var i :| 0 <= i < n && order[i] == p;
  }
}
