/** The slide/merge chain of one tile (`moveTile`) as a function on boards,
    and what it guarantees: where the tile stops, which cells change, and
    that the sum of values, the empty cells and the powers of two are kept. */
module TileChain {
  import opened Grid

  datatype ChainResult = ChainResult(grid: Grid, dest: Option<Pos>)

  /** How many steps a tile at `p` can take before it reaches the edge it travels to. */
  function EdgeDistance(g: Grid, p: Pos, d: Direction): int
  {
    match d
    case Left => p.x
    case Right => g.width - 1 - p.x
    case Up => p.y
    case Down => g.height - 1 - p.y
  }

  /** `moveTile`: an empty cell yields no destination; otherwise the tile steps into
      empty neighbours one at a time, merges into an equal neighbour (which then holds
      the doubled value and ends the chain), and stops at the edge or at a different value. */
  function Chain(g: Grid, p: Pos, d: Direction): (r: ChainResult)
    requires g.Valid() && InBounds(g.width, g.height, p)
    ensures r.grid.Valid() && r.grid.width == g.width && r.grid.height == g.height
    decreases EdgeDistance(g, p, d)
  {
    var here := g.cells[Index(g.width, g.height, p)];
    if here.None? then ChainResult(g, None)
    else
      var q := Step(d, p);
      match g.Get(q)
      case None => ChainResult(g, Some(p))
      case Some(prev) =>
        if prev.None? then
          Chain(g.Set(q, here).Set(p, None), q, d)
        else if prev == here then
          ChainResult(g.Set(q, Some(2 * here.value)).Set(p, None), Some(q))
        else
          ChainResult(g, Some(p))
  }

  /** A tile of value `v` at `p` can take no step: the next cell is off the board
      or holds a different value. */
  predicate Blocked(g: Grid, p: Pos, v: TileValue, d: Direction)
    requires g.Valid()
  {
    match g.Get(Step(d, p))
    case None => true
    case Some(c) => c.Some? && c.value != v
  }

  /** Every cell strictly between `p` and `t` is empty. */
  ghost predicate ClearBetween(g: Grid, d: Direction, p: Pos, t: Pos)
    requires g.Valid()
  {
    forall q :: Ahead(d, p, q) && Ahead(d, q, t) ==> g.Get(q) == Some(None)
  }

  /** The cell at `p` is on the board and holds a tile. */
  predicate HoldsTile(g: Grid, p: Pos)
    requires g.Valid()
  {
    g.Get(p).Some? && g.Get(p).value.Some?
  }

  /** The chain's outcome, stated without following its steps. */
  ghost predicate ChainOutcome(g: Grid, p: Pos, d: Direction, r: ChainResult)
    requires g.Valid() && InBounds(g.width, g.height, p)
  {
    match g.cells[Index(g.width, g.height, p)]
    case None => r == ChainResult(g, None)
    case Some(v) =>
      r.dest.Some? && InBounds(g.width, g.height, r.dest.value) &&
      var t := r.dest.value;
      (t == p ==> r.grid == g && Blocked(g, p, v, d)) &&
      (t != p ==>
        Ahead(d, p, t) && ClearBetween(g, d, p, t) &&
        ((g.Get(t) == Some(None) && Blocked(g, t, v, d) && r.grid == g.Set(t, Some(v)).Set(p, None)) ||
         (g.Get(t) == Some(Some(v)) && r.grid == g.Set(t, Some(2 * v)).Set(p, None))))
  }

  /** Sliding a tile from `p` through the empty cell `q` and on to `t` has the effect of
      writing `t` and emptying `p` directly. */
  lemma SlideThrough(g: Grid, p: Pos, q: Pos, t: Pos, v: TileValue, c: Cell)
    requires g.Valid() && InBounds(g.width, g.height, p) && InBounds(g.width, g.height, q)
    requires InBounds(g.width, g.height, t)
    requires p != q && p != t && q != t && g.Get(q) == Some(None)
    ensures g.Set(q, Some(v)).Set(p, None).Set(t, c).Set(q, None) == g.Set(t, c).Set(p, None)
  {
    var a := g.Set(q, Some(v)).Set(p, None).Set(t, c).Set(q, None);
    var b := g.Set(t, c).Set(p, None);
    forall s | InBounds(g.width, g.height, s)
      ensures a.Get(s) == b.Get(s)
    {
    }
    GridExtensional(a, b);
  }

  /** A tile of value `v` at `p` whose next cell `q` is empty: whatever the chain from
      `q` does on the board after the first step, the chain from `p` does on `g`. */
  lemma SlideOutcome(g: Grid, p: Pos, d: Direction, v: TileValue, r: ChainResult)
    requires g.Valid() && InBounds(g.width, g.height, p)
    requires g.Get(p) == Some(Some(v)) && g.Get(Step(d, p)) == Some(None)
    requires ChainOutcome(g.Set(Step(d, p), Some(v)).Set(p, None), Step(d, p), d, r)
    ensures ChainOutcome(g, p, d, r)
  {
    var q := Step(d, p);
    var g1 := g.Set(q, Some(v)).Set(p, None);
    assert g.cells[Index(g.width, g.height, p)] == Some(v);
    assert g1.cells[Index(g.width, g.height, q)] == Some(v) by {
      assert g1.Get(q) == Some(Some(v));
    }
    var t := r.dest.value;
    if t == q {
      SlideStop(g, p, d, v);
    } else {
      SlideFurther(g, p, d, v, t, r.grid);
    }
  }

  /** The tile slides one cell and stops there. */
  lemma SlideStop(g: Grid, p: Pos, d: Direction, v: TileValue)
    requires g.Valid() && InBounds(g.width, g.height, p)
    requires g.Get(p) == Some(Some(v)) && g.Get(Step(d, p)) == Some(None)
    requires Blocked(g.Set(Step(d, p), Some(v)).Set(p, None), Step(d, p), v, d)
    ensures Blocked(g, Step(d, p), v, d) && ClearBetween(g, d, p, Step(d, p))
  {
    var q := Step(d, p);
    var g1 := g.Set(q, Some(v)).Set(p, None);
    assert Ahead(d, q, Step(d, q));
    AheadTransitive(d, p, q, Step(d, q));
    assert g1.Get(Step(d, q)) == g.Get(Step(d, q));
  }

  /** The tile slides one cell and the chain from there ends further on at `t`. */
  lemma SlideFurther(g: Grid, p: Pos, d: Direction, v: TileValue, t: Pos, h: Grid)
    requires g.Valid() && InBounds(g.width, g.height, p) && InBounds(g.width, g.height, t)
    requires g.Get(p) == Some(Some(v)) && g.Get(Step(d, p)) == Some(None)
    requires var g1 := g.Set(Step(d, p), Some(v)).Set(p, None);
      Ahead(d, Step(d, p), t) && ClearBetween(g1, d, Step(d, p), t) &&
      ((g1.Get(t) == Some(None) && Blocked(g1, t, v, d) && h == g1.Set(t, Some(v)).Set(Step(d, p), None)) ||
       (g1.Get(t) == Some(Some(v)) && h == g1.Set(t, Some(2 * v)).Set(Step(d, p), None)))
    ensures Ahead(d, p, t) && ClearBetween(g, d, p, t)
    ensures (g.Get(t) == Some(None) && Blocked(g, t, v, d) && h == g.Set(t, Some(v)).Set(p, None)) ||
            (g.Get(t) == Some(Some(v)) && h == g.Set(t, Some(2 * v)).Set(p, None))
  {
    var q := Step(d, p);
    var g1 := g.Set(q, Some(v)).Set(p, None);
    AheadTransitive(d, p, q, t);
    assert g1.Get(t) == g.Get(t);
    forall s | Ahead(d, p, s) && Ahead(d, s, t)
      ensures g.Get(s) == Some(None)
    {
      if s != q {
        assert Ahead(d, q, s);
        assert g1.Get(s) == g.Get(s);
      }
    }
    if g.Get(t) == Some(None) {
      assert Blocked(g, t, v, d) by {
        assert Ahead(d, t, Step(d, t));
        AheadTransitive(d, q, t, Step(d, t));
        AheadTransitive(d, p, q, Step(d, t));
        assert g1.Get(Step(d, t)) == g.Get(Step(d, t));
      }
      SlideThrough(g, p, q, t, v, Some(v));
    } else {
      SlideThrough(g, p, q, t, v, Some(2 * v));
    }
  }

  lemma {:induction false} ChainSpec(g: Grid, p: Pos, d: Direction)
    requires g.Valid() && InBounds(g.width, g.height, p)
    ensures ChainOutcome(g, p, d, Chain(g, p, d))
    decreases EdgeDistance(g, p, d)
  {
    var here := g.cells[Index(g.width, g.height, p)];
    if here.Some? {
      var q := Step(d, p);
      if g.Get(q) == Some(None) {
        var g1 := g.Set(q, here).Set(p, None);
        ChainSpec(g1, q, d);
        assert Chain(g, p, d) == Chain(g1, q, d);
        SlideOutcome(g, p, d, here.value, Chain(g1, q, d));
      }
    }
  }

  /** A chain that records no move (no tile, or a tile that stays) changes nothing. */
  lemma ChainStays(g: Grid, p: Pos, d: Direction)
    requires g.Valid() && InBounds(g.width, g.height, p)
    ensures Chain(g, p, d).dest.None? || Chain(g, p, d).dest.value == p ==> Chain(g, p, d).grid == g
  {
    ChainSpec(g, p, d);
  }

  /** A chain that records a move ends ahead of its start, at a cell that now holds
      a tile, and leaves its start empty. */
  lemma ChainMoves(g: Grid, p: Pos, d: Direction)
    requires g.Valid() && InBounds(g.width, g.height, p)
    ensures var r := Chain(g, p, d);
      r.dest.Some? && r.dest.value != p ==>
        Ahead(d, p, r.dest.value) && HoldsTile(r.grid, r.dest.value) && r.grid.Get(p) == Some(None)
  {
    ChainSpec(g, p, d);
  }

  /** The chain keeps the sum of all tile values. */
  lemma ChainTotal(g: Grid, p: Pos, d: Direction)
    requires g.Valid() && InBounds(g.width, g.height, p)
    ensures Total(Chain(g, p, d).grid.cells) == Total(g.cells)
  {
    ChainSpec(g, p, d);
    var r := Chain(g, p, d);
    if r.dest.Some? && r.dest.value != p {
      var t := r.dest.value;
      var v := g.cells[Index(g.width, g.height, p)].value;
      var it, ip := Index(g.width, g.height, t), Index(g.width, g.height, p);
      var c := if g.Get(t) == Some(None) then Some(v) else Some(2 * v);
      var g1 := g.Set(t, c);
      TotalUpdate(g.cells, it, c);
      assert g1.cells[ip] == Some(v) by { assert g1.Get(p) == g.Get(p); }
      TotalUpdate(g1.cells, ip, None);
    }
  }

  /** A slide keeps the number of empty cells; a merge adds one. */
  lemma ChainEmptyCount(g: Grid, p: Pos, d: Direction)
    requires g.Valid() && InBounds(g.width, g.height, p)
    ensures var r := Chain(g, p, d);
      EmptyCount(r.grid.cells) ==
        EmptyCount(g.cells) + (if r.dest.Some? && r.dest.value != p && g.Get(r.dest.value) != Some(None) then 1 else 0)
  {
    ChainSpec(g, p, d);
    var r := Chain(g, p, d);
    if r.dest.Some? && r.dest.value != p {
      var t := r.dest.value;
      var v := g.cells[Index(g.width, g.height, p)].value;
      var it, ip := Index(g.width, g.height, t), Index(g.width, g.height, p);
      var c := if g.Get(t) == Some(None) then Some(v) else Some(2 * v);
      var g1 := g.Set(t, c);
      EmptyCountUpdate(g.cells, it, c);
      assert g1.cells[ip] == Some(v) by { assert g1.Get(p) == g.Get(p); }
      EmptyCountUpdate(g1.cells, ip, None);
    }
  }

  lemma DoublePowerOfTwo(v: nat)
    requires IsPowerOfTwo(v)
    ensures IsPowerOfTwo(2 * v)
  {
    assert (2 * v) / 2 == v;
  }

  /** If every tile value is a power of two, it still is after the chain. */
  lemma ChainPowers(g: Grid, p: Pos, d: Direction)
    requires g.Valid() && InBounds(g.width, g.height, p) && AllPowersOfTwo(g.cells)
    ensures AllPowersOfTwo(Chain(g, p, d).grid.cells)
  {
    ChainSpec(g, p, d);
    var r := Chain(g, p, d);
    if r.dest.Some? && r.dest.value != p {
      var t := r.dest.value;
      var v := g.cells[Index(g.width, g.height, p)].value;
      DoublePowerOfTwo(v);
      forall i | 0 <= i < |r.grid.cells| && r.grid.cells[i].Some?
        ensures IsPowerOfTwo(r.grid.cells[i].value)
      {
        var s := PosOf(g.width, g.height, i);
        assert r.grid.Get(s) == Some(r.grid.cells[i]);
        if s != t && s != p {
          assert r.grid.Get(s) == g.Get(s);
        }
      }
    }
  }

  /** The chain empties no cell except its start. */
  lemma ChainKeepsTiles(g: Grid, p: Pos, d: Direction, s: Pos)
    requires g.Valid() && InBounds(g.width, g.height, p) && s != p
    requires HoldsTile(g, s)
    ensures HoldsTile(Chain(g, p, d).grid, s)
  {
    ChainSpec(g, p, d);
  }

  /** The chain changes only its start and cells ahead of it. */
  lemma ChainFrame(g: Grid, p: Pos, d: Direction, q: Pos)
    requires g.Valid() && InBounds(g.width, g.height, p)
    requires q != p && !Ahead(d, p, q)
    ensures Chain(g, p, d).grid.Get(q) == g.Get(q)
  {
    ChainSpec(g, p, d);
  }

  /** A tile stays where it is exactly when it cannot take its first step (the
      edge, or a different value, is next to it), and then the board is unchanged. */
  lemma ChainBlocked(g: Grid, p: Pos, d: Direction)
    requires g.Valid() && HoldsTile(g, p)
    ensures Chain(g, p, d).dest == Some(p) <==> Blocked(g, p, g.Get(p).value.value, d)
    ensures Chain(g, p, d).dest == Some(p) ==> Chain(g, p, d).grid == g
  {
    ChainSpec(g, p, d);
    var v := g.Get(p).value.value;
    var r := Chain(g, p, d);
    if Blocked(g, p, v, d) && r.dest != Some(p) {
      assert false;
    }
  }
}
