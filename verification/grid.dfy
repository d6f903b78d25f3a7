/** The board of the 2048 engine as a value: a width x height grid of cells
    stored row-major (index y * width + x), each empty or holding a tile value,
    together with the four unit steps a tile can take. */
module Grid {

  datatype Option<+T> = None | Some(value: T)

  /** A tile value. The engine only ever stores positive numbers
      (2 and 4 from the spawner, and their doublings). */
  type TileValue = v: nat | 0 < v witness 2

  /** A cell: `None` is the engine's `null` (an empty cell). */
  type Cell = Option<TileValue>

  datatype Direction = Left | Right | Up | Down

  /** A coordinate pair. Steps may leave the board, so coordinates are integers. */
  datatype Pos = Pos(x: int, y: int)

  /** The names `move` accepts: the keys of the direction table. */
  function DirectionName(d: Direction): string
  {
    match d
    case Left => "left"
    case Right => "right"
    case Up => "up"
    case Down => "down"
  }

  function ParseDirection(name: string): (r: Option<Direction>)
    ensures r.Some? <==> name in {"left", "right", "up", "down"}
    ensures r.Some? ==> DirectionName(r.value) == name
  {
    if name == "left" then Some(Left)
    else if name == "right" then Some(Right)
    else if name == "up" then Some(Up)
    else if name == "down" then Some(Down)
    else None
  }

  lemma ParseDirectionName(d: Direction)
    ensures ParseDirection(DirectionName(d)) == Some(d)
  {
    match d
    case Left =>
    case Right =>
    case Up => assert DirectionName(d) != "left" && DirectionName(d) != "right";
    case Down => assert DirectionName(d) != "left" && DirectionName(d) != "right" && DirectionName(d) != "up";
  }

  /** `q` lies strictly ahead of `p` on `p`'s row or column, in the direction of travel. */
  predicate Ahead(d: Direction, p: Pos, q: Pos)
  {
    match d
    case Left => q.y == p.y && q.x < p.x
    case Right => q.y == p.y && q.x > p.x
    case Up => q.x == p.x && q.y < p.y
    case Down => q.x == p.x && q.y > p.y
  }

  /** The unit step of the direction table: the neighbour a tile at `p` moves towards.
      It is ahead of `p` and nothing lies between them. */
  function Step(d: Direction, p: Pos): (q: Pos)
    ensures Ahead(d, p, q)
    ensures forall r :: Ahead(d, p, r) ==> r == q || Ahead(d, q, r)
  {
    match d
    case Left => Pos(p.x - 1, p.y)
    case Right => Pos(p.x + 1, p.y)
    case Up => Pos(p.x, p.y - 1)
    case Down => Pos(p.x, p.y + 1)
  }

  lemma {:induction false} AheadTransitive(d: Direction, p: Pos, q: Pos, r: Pos)
    requires Ahead(d, p, q) && Ahead(d, q, r)
    ensures Ahead(d, p, r)
  {
    match d
    case Left =>
    case Right =>
    case Up =>
    case Down =>
  }

  /** Lexicographic order on (y, x): the order in which the constructor creates cells. */
  predicate RowMajorLess(a: Pos, b: Pos)
  {
    a.y < b.y || (a.y == b.y && a.x < b.x)
  }

  predicate InBounds(width: nat, height: nat, p: Pos)
  {
    0 <= p.x < width && 0 <= p.y < height
  }

  lemma MulMonotone(a: nat, b: nat, c: nat)
    requires a <= b
    ensures a * c <= b * c
  {
  }

  /** The position of cell (x, y) in the row-major cell sequence. */
  function Index(width: nat, height: nat, p: Pos): (i: nat)
    requires InBounds(width, height, p)
    ensures i < width * height
  {
    MulMonotone(p.y + 1, height, width);
    p.y * width + p.x
  }

  lemma MulSucc(a: int, w: int)
    ensures (a + 1) * w == a * w + w
  {
  }

  lemma DivModUnique(q: int, r: int, w: int)
    requires 0 <= q && 0 <= r < w
    ensures (q * w + r) / w == q && (q * w + r) % w == r
  {
    var i := q * w + r;
    var q', r' := i / w, i % w;
    assert i == q' * w + r' && 0 <= r' < w;
    if q' < q {
      MulMonotone(q' + 1, q, w);
      MulSucc(q', w);
      assert false;
    } else if q' > q {
      MulMonotone(q + 1, q', w);
      MulSucc(q, w);
      assert false;
    }
  }

  /** The coordinates of the i-th cell in row-major order. */
  function PosOf(width: nat, height: nat, i: nat): (p: Pos)
    requires i < width * height
    ensures InBounds(width, height, p) && Index(width, height, p) == i
  {
    var p := Pos(i % width, i / width);
    assert i / width < height by {
      if i / width >= height {
        MulMonotone(height, i / width, width);
      }
    }
    p
  }

  lemma PosOfIndex(width: nat, height: nat, p: Pos)
    requires InBounds(width, height, p)
    ensures PosOf(width, height, Index(width, height, p)) == p
  {
    DivModUnique(p.y, p.x, width);
  }

  /** Row-major indices order cells by row, then by column. */
  lemma IndexOrder(width: nat, height: nat, a: Pos, b: Pos)
    requires InBounds(width, height, a) && InBounds(width, height, b)
    ensures Index(width, height, a) < Index(width, height, b) <==> RowMajorLess(a, b)
  {
    if a.y < b.y {
      RowBefore(width, a, b);
    } else if b.y < a.y {
      RowBefore(width, b, a);
    }
  }

  /** Every cell of an earlier row precedes every cell of a later row. */
  lemma RowBefore(width: nat, a: Pos, b: Pos)
    requires 0 <= a.x < width && 0 <= b.x < width && 0 <= a.y < b.y
    ensures a.y * width + a.x < b.y * width + b.x
  {
    MulMonotone(a.y + 1, b.y, width);
    MulSucc(a.y, width);
  }

  lemma IndexInjective(width: nat, height: nat, a: Pos, b: Pos)
    requires InBounds(width, height, a) && InBounds(width, height, b) && a != b
    ensures Index(width, height, a) != Index(width, height, b)
  {
    PosOfIndex(width, height, a);
    PosOfIndex(width, height, b);
  }

  function ValueOf(c: Cell): nat
  {
    if c.Some? then c.value else 0
  }

  /** The sum of all tile values. */
  function Total(s: seq<Cell>): nat
  {
    if s == [] then 0 else ValueOf(s[0]) + Total(s[1..])
  }

  /** The number of empty cells. */
  function EmptyCount(s: seq<Cell>): nat
  {
    if s == [] then 0 else (if s[0].None? then 1 else 0) + EmptyCount(s[1..])
  }

  predicate IsPowerOfTwo(n: nat)
    decreases n
  {
    n == 1 || (n >= 2 && n % 2 == 0 && IsPowerOfTwo(n / 2))
  }

  predicate AllPowersOfTwo(s: seq<Cell>)
  {
    forall i :: 0 <= i < |s| && s[i].Some? ==> IsPowerOfTwo(s[i].value)
  }

  lemma {:induction false} TotalUpdate(s: seq<Cell>, i: nat, c: Cell)
    requires i < |s|
    ensures Total(s[i := c]) == Total(s) - ValueOf(s[i]) + ValueOf(c)
  {
    if i == 0 {
      assert s[i := c][1..] == s[1..];
    } else {
      assert s[i := c][1..] == s[1..][i - 1 := c];
      TotalUpdate(s[1..], i - 1, c);
    }
  }

  lemma {:induction false} EmptyCountUpdate(s: seq<Cell>, i: nat, c: Cell)
    requires i < |s|
    ensures EmptyCount(s[i := c]) ==
            EmptyCount(s) - (if s[i].None? then 1 else 0) + (if c.None? then 1 else 0)
  {
    if i == 0 {
      assert s[i := c][1..] == s[1..];
    } else {
      assert s[i := c][1..] == s[1..][i - 1 := c];
      EmptyCountUpdate(s[1..], i - 1, c);
    }
  }

  lemma {:induction false} EmptyCountPositive(s: seq<Cell>, i: nat)
    requires i < |s| && s[i].None?
    ensures EmptyCount(s) >= 1
  {
    if i > 0 {
      EmptyCountPositive(s[1..], i - 1);
    }
  }

  /** The row-major indices, from `k` on, of the empty cells, in increasing order. */
  function EmptyIndicesFrom(s: seq<Cell>, k: nat): (r: seq<nat>)
    requires k <= |s|
    ensures |r| == EmptyCount(s[k..])
    ensures forall i :: i in r <==> k <= i < |s| && s[i].None?
    ensures forall a, b :: 0 <= a < b < |r| ==> r[a] < r[b]
    decreases |s| - k
  {
    if k == |s| then []
    else
      var rest := EmptyIndicesFrom(s, k + 1);
      assert s[k..][1..] == s[k + 1..];
      assert forall j :: 0 <= j < |rest| ==> rest[j] > k by {
        forall j | 0 <= j < |rest| ensures rest[j] > k {
          assert rest[j] in rest;
        }
      }
      if s[k].None? then [k] + rest else rest
  }

  datatype Grid = Grid(width: nat, height: nat, cells: seq<Cell>) {

    predicate Valid()
    {
      |cells| == width * height
    }

    /** `getTile`: `None` off the board (the engine's `undefined`), the cell otherwise. */
    function Get(p: Pos): (r: Option<Cell>)
      requires Valid()
      ensures r.Some? <==> InBounds(width, height, p)
    {
      if InBounds(width, height, p) then Some(cells[Index(width, height, p)]) else None
    }

    /** Overwrite the cell at `p`; every other cell keeps its value. */
    function Set(p: Pos, c: Cell): (g: Grid)
      requires Valid() && InBounds(width, height, p)
      ensures g.Valid() && g.width == width && g.height == height
      ensures g.Get(p) == Some(c)
      ensures forall q {:trigger g.Get(q)} :: q != p ==> g.Get(q) == Get(q)
    {
      var g := Grid(width, height, cells[Index(width, height, p) := c]);
      forall q | q != p && InBounds(width, height, q)
        ensures g.Get(q) == Get(q)
      {
        IndexInjective(width, height, p, q);
      }
      g
    }

    /** `getEmptyTiles`: the empty cells, in row-major order. */
    function EmptyTiles(): (r: seq<Pos>)
      requires Valid()
      ensures |r| == EmptyCount(cells)
      ensures forall p :: p in r <==> InBounds(width, height, p) && Get(p) == Some(None)
      ensures forall a, b :: 0 <= a < b < |r| ==> RowMajorLess(r[a], r[b])
    {
      var idx := EmptyIndicesFrom(cells, 0);
      assert cells[0..] == cells;
      assert forall k :: 0 <= k < |idx| ==> idx[k] < width * height by {
        forall k | 0 <= k < |idx| ensures idx[k] < width * height {
          assert idx[k] in idx;
        }
      }
      var r := seq(|idx|, k requires 0 <= k < |idx| => PosOf(width, height, idx[k]));
      forall p | InBounds(width, height, p) && Get(p) == Some(None)
        ensures p in r
      {
        var i := Index(width, height, p);
        assert i in idx;
        var k :| 0 <= k < |idx| && idx[k] == i;
        PosOfIndex(width, height, p);
        assert r[k] == p;
      }
      forall a, b | 0 <= a < b < |r|
        ensures RowMajorLess(r[a], r[b])
      {
        IndexOrder(width, height, r[a], r[b]);
      }
      r
    }
  }

  /** Two grids of the same shape that agree on every cell are equal. */
  lemma GridExtensional(g: Grid, h: Grid)
    requires g.Valid() && h.Valid() && g.width == h.width && g.height == h.height
    requires forall p :: InBounds(g.width, g.height, p) ==> g.Get(p) == h.Get(p)
    ensures g == h
  {
    forall i | 0 <= i < |g.cells|
      ensures g.cells[i] == h.cells[i]
    {
      var p := PosOf(g.width, g.height, i);
      assert g.Get(p) == h.Get(p);
    }
  }

  /** A board of the given size with every cell empty. */
  function EmptyGrid(width: nat, height: nat): (g: Grid)
    ensures g.Valid() && g.width == width && g.height == height
    ensures forall p :: InBounds(width, height, p) ==> g.Get(p) == Some(None)
  {
    Grid(width, height, seq(width * height, _ => None))
  }
}
