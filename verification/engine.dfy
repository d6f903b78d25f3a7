/** The engine object: a board of `width * height` cells updated in place,
    with direct access, the per-tile chain, the whole move and the spawner.
    Each method is proved against the board functions of Grid, TileChain,
    Mover and Spawner. */
module GameEngine {
  import opened Grid
  import opened TileChain
  import opened Mover
  import opened Spawner

  /** What `move` produces: `null` for a name that is not a direction, the list
      of records, or the "End" error. */
  datatype MoveOutcome = UnknownDirection | Moved(records: seq<Record>) | End

  datatype Turn = Turn(grid: Grid, outcome: MoveOutcome)

  /** `move(name, fillRandomTiles)` on board `g`: sweep in the named direction and,
      when asked to and some tile moved, spawn tiles. The "End" error is raised only
      when the spawn found no room and no tile moved. */
  function Play(g: Grid, name: string, fill: bool, rand: nat -> nat): (t: Turn)
    requires g.Valid()
    ensures t.grid.Valid() && t.grid.width == g.width && t.grid.height == g.height
  {
    match ParseDirection(name)
    case None => Turn(g, UnknownDirection)
    case Some(d) =>
      var m := MoveBoard(g, d);
      if fill && |m.moved| > 0 then
        var s := Spawn(m.grid, 0, rand);
        Turn(s.grid, if s.filled.None? && |m.moved| == 0 then End else Moved(m.moved))
      else
        Turn(m.grid, Moved(m.moved))
  }

  /** After a move that recorded something, the spawn always finds an empty cell. */
  lemma MoveLeavesRoomToSpawn(g: Grid, d: Direction, rand: nat -> nat)
    requires g.Valid() && MoveBoard(g, d).moved != []
    ensures Spawn(MoveBoard(g, d).grid, 0, rand).filled.Some?
  {
    MoveRecordsAndRoom(g, d);
    SpawnSpec(MoveBoard(g, d).grid, 0, rand);
  }

  /** `move` never raises "End"; an unknown name changes nothing; a move with no
      records changes nothing, spawn or not; a move with records and auto-spawn adds
      one or two tiles; the sum of values never drops, and is kept exactly without a
      spawn. */
  lemma PlaySpec(g: Grid, name: string, fill: bool, rand: nat -> nat)
    requires g.Valid()
    ensures Play(g, name, fill, rand).outcome != End
    ensures ParseDirection(name).None? ==> Play(g, name, fill, rand) == Turn(g, UnknownDirection)
    ensures Play(g, name, fill, rand).outcome == Moved([]) ==> Play(g, name, fill, rand).grid == g
    ensures Total(Play(g, name, fill, rand).grid.cells) >= Total(g.cells)
    ensures ParseDirection(name).Some? && (!fill || Play(g, name, fill, rand).outcome == Moved([])) ==>
      Total(Play(g, name, fill, rand).grid.cells) == Total(g.cells)
    ensures ParseDirection(name).Some? && fill && Play(g, name, fill, rand).outcome != Moved([]) ==>
      EmptyCount(Play(g, name, fill, rand).grid.cells) ==
        EmptyCount(MoveBoard(g, ParseDirection(name).value).grid.cells) - SpawnAmount(0, rand) ||
      EmptyCount(Play(g, name, fill, rand).grid.cells) == 0
  {
    if ParseDirection(name).Some? {
      var d := ParseDirection(name).value;
      var m := MoveBoard(g, d);
      MoveRecordsAndRoom(g, d);
      MoveTotal(g, d);
      if fill && |m.moved| > 0 {
        SpawnSpec(m.grid, 0, rand);
      }
    }
  }

  /** On a board where every tile is blocked in direction `d`, `move` in that
      direction records nothing and leaves the board as it was, with or without
      auto-spawn. */
  lemma PlayStuck(g: Grid, d: Direction, fill: bool, rand: nat -> nat)
    requires g.Valid() && Stuck(g, d)
    ensures Play(g, DirectionName(d), fill, rand) == Turn(g, Moved([]))
  {
    ParseDirectionName(d);
    MoveRecordsIffStuck(g, d);
  }

  class Engine {
    const width: nat
    const height: nat
    /** The cells, row-major: cell (x, y) is `tiles[y * width + x]`. */
    const tiles: array<Cell>
    var isEnded: bool

    ghost predicate Valid()
      reads this
    {
      tiles.Length == width * height
    }

    /** The board as a value. */
    function Board(): (g: Grid)
      reads this, tiles
      ensures g.width == width && g.height == height && g.cells == tiles[..]
    {
      Grid(width, height, tiles[..])
    }

    /** A board of `width * height` empty cells, created row by row. */
    constructor (width: nat := 4, height: nat := 4)
      ensures Valid() && fresh(tiles) && !isEnded
      ensures this.width == width && this.height == height
      ensures Board() == EmptyGrid(width, height)
    {
      this.width := width;
      this.height := height;
      tiles := new Cell[width * height];
      isEnded := false;
      new;
      var y := 0;
      while y < height
        invariant 0 <= y <= height && !isEnded
        invariant forall i :: 0 <= i < tiles.Length && i < y * width ==> tiles[i] == None
      {
        var x := 0;
        while x < width
          invariant 0 <= x <= width && !isEnded
          invariant forall i :: 0 <= i < tiles.Length && i < y * width + x ==> tiles[i] == None
        {
          tiles[Index(width, height, Pos(x, y))] := None;
          x := x + 1;
        }
        MulSucc(y, width);
        y := y + 1;
      }
      assert height * width == tiles.Length;
      assert tiles[..] == EmptyGrid(width, height).cells;
    }

    /** `getTile`: `None` off the board, otherwise the cell at (x, y). */
    function GetTile(x: int, y: int): (r: Option<Cell>)
      requires Valid()
      reads this, tiles
      ensures r.Some? <==> InBounds(width, height, Pos(x, y))
      ensures r.Some? ==> r.value == tiles[Index(width, height, Pos(x, y))]
    {
      Board().Get(Pos(x, y))
    }

    /** `setTile` on a cell of the board: that cell takes the value, no other changes. */
    method SetTile(x: nat, y: nat, value: Cell)
      requires Valid() && x < width && y < height
      modifies tiles
      ensures Board() == old(Board()).Set(Pos(x, y), value)
      ensures GetTile(x, y) == Some(value)
      ensures forall p :: p != Pos(x, y) ==> Board().Get(p) == old(Board()).Get(p)
    {
      tiles[Index(width, height, Pos(x, y))] := value;
    }

    /** `getEmptyTiles`: the empty cells, in row-major order. */
    function GetEmptyTiles(): (r: seq<Pos>)
      requires Valid()
      reads this, tiles
      ensures |r| == EmptyCount(tiles[..])
      ensures forall p :: p in r <==> InBounds(width, height, p) && tiles[Index(width, height, p)].None?
      ensures forall a, b :: 0 <= a < b < |r| ==> RowMajorLess(r[a], r[b])
    {
      Board().EmptyTiles()
    }

    /** `fillRandomTiles(amount)`, with the random draws supplied as `rand`
        (an `amount` of 0 stands for a missing one). */
    method FillRandomTiles(amount: nat, rand: nat -> nat) returns (r: Option<seq<Pos>>)
      requires Valid()
      modifies tiles
      ensures r == Spawn(old(Board()), amount, rand).filled
      ensures Board() == Spawn(old(Board()), amount, rand).grid
    {
      var emptyTiles := GetEmptyTiles();
      if |emptyTiles| == 0 {
        return None;
      }
      var n := Min(SpawnAmount(amount, rand), |emptyTiles|);
      var randomTiles := SampleSize(emptyTiles, n, rand, 1);
      assert AllOnBoard(Board(), randomTiles) by {
        forall i | 0 <= i < |randomTiles| ensures InBounds(width, height, randomTiles[i]) {
          assert randomTiles[i] in emptyTiles;
        }
      }
      PlaceTiles(randomTiles, rand);
      return Some(randomTiles);
    }

    /** The loop of `fillRandomTiles`: write a drawn value into each chosen cell, in order. */
    method PlaceTiles(picks: seq<Pos>, rand: nat -> nat)
      requires Valid() && AllOnBoard(Board(), picks)
      modifies tiles
      ensures Board() == Fill(old(Board()), picks, SpawnValues(|picks|, rand))
    {
      ghost var g0 := Board();
      ghost var values := SpawnValues(|picks|, rand);
      for i := 0 to |picks|
        invariant Board() == Fill(g0, picks[..i], values[..i])
      {
        ghost var before := Board();
        var value := SpawnValue(|picks|, rand, i);
        tiles[Index(width, height, picks[i])] := Some(value);
        assert Board() == before.Set(picks[i], Some(value));
        assert picks[..i + 1][..i] == picks[..i];
        assert values[..i + 1][..i] == values[..i];
      }
      assert picks[..|picks|] == picks;
      assert values[..|values|] == values;
    }

    /** `moveTile`: run the slide/merge chain of the tile at `p`; the result is
        the cell where it stopped, or `None` when `p` is empty. */
    method MoveTile(p: Pos, d: Direction) returns (dest: Option<Pos>)
      requires Valid() && InBounds(width, height, p)
      modifies tiles
      ensures ChainResult(Board(), dest) == Chain(old(Board()), p, d)
      decreases EdgeDistance(Board(), p, d)
    {
      var here := tiles[Index(width, height, p)];
      if here.None? {
        return None;
      }
      var q := Step(d, p);
      var prev := GetTile(q.x, q.y);
      if prev.Some? {
        if prev.value.None? {
          tiles[Index(width, height, q)] := here;
          tiles[Index(width, height, p)] := None;
          assert Board() == old(Board()).Set(q, here).Set(p, None);
          dest := MoveTile(q, d);
          return;
        } else if prev.value == here {
          tiles[Index(width, height, q)] := Some(2 * here.value);
          tiles[Index(width, height, p)] := None;
          assert Board() == old(Board()).Set(q, Some(2 * here.value)).Set(p, None);
          return Some(q);
        }
      }
      return Some(p);
    }

    /** The loop of `move`: visit every cell in the direction's order, run the chain
        from each, and collect a record for each tile that ended elsewhere. */
    method SweepTiles(d: Direction) returns (moved: seq<Record>)
      requires Valid()
      modifies tiles
      ensures SweepResult(Board(), moved) == MoveBoard(old(Board()), d)
    {
      var order := VisitOrder(Board(), d);
      ghost var g0 := Board();
      ghost var current := g0;
      moved := [];
      var k := 0;
      while k < |order|
        invariant 0 <= k <= |order| && current == Board()
        invariant Sweep(g0, d, order, k) == SweepResult(current, moved)
      {
        var next := VisitCell(order[k], d, moved);
        SweepStep(g0, d, order, k, current, moved, Chain(current, order[k], d));
        moved := next;
        current := Board();
        k := k + 1;
      }
    }

    /** One visit of the loop of `move`: run the chain from `p` and add a record
        if its tile ended elsewhere. */
    method VisitCell(p: Pos, d: Direction, moved: seq<Record>) returns (next: seq<Record>)
      requires Valid() && InBounds(width, height, p)
      modifies tiles
      ensures var c := Chain(old(Board()), p, d);
        Board() == c.grid && next == AddRecord(moved, p, c.dest)
    {
      var destination := MoveTile(p, d);
      next := moved;
      if destination.Some? && destination.value != p {
        next := moved + [Record(p, destination.value)];
      }
    }

    /** `move(name, fillRandomTiles)`: sweep in the named direction, then spawn if
        asked to and something moved. */
    method Move(name: string, fill: bool, rand: nat -> nat) returns (r: MoveOutcome)
      requires Valid()
      modifies this, tiles
      ensures r == Play(old(Board()), name, fill, rand).outcome
      ensures Board() == Play(old(Board()), name, fill, rand).grid
      ensures isEnded == old(isEnded)
    {
      var direction := ParseDirection(name);
      if direction.None? {
        return UnknownDirection;
      }
      var moved := SweepTiles(direction.value);
      if fill && |moved| > 0 {
        var result := FillRandomTiles(0, rand);
        // The ended flag is set, and "End" raised, only when this holds.
        var ended := result.None? && |moved| == 0;
        isEnded := isEnded || ended;
        return if ended then End else Moved(moved);
      }
      return Moved(moved);
    }
  }
}
