/** Random tile placement (`fillRandomTiles`) as a function on boards. The
    random source is a stream of draws `rand(0), rand(1), ...`: a draw picks
    an entry of a table by its remainder, so that every entry can be drawn. */
module Spawner {
  import opened Grid

  /** One 4 in ten entries: a new tile is a 4 with one chance in ten. */
  const RandomTileValues: seq<TileValue> := [2, 2, 2, 2, 2, 2, 2, 2, 2, 4]

  /** Two 2s in five entries: two new tiles with two chances in five. */
  const RandomTileAmounts: seq<nat> := [1, 1, 1, 2, 2]

  /** `_.sample`: some entry of the table, the one the draw selects. */
  function Sample<T>(table: seq<T>, draw: nat): (r: T)
    requires |table| > 0
    ensures r in table
  {
    table[draw % |table|]
  }

  predicate Distinct<T(==)>(s: seq<T>)
  {
    forall i, j :: 0 <= i < j < |s| ==> s[i] != s[j]
  }

  /** `_.sampleSize`: `n` entries of `pool` chosen without replacement; the draw
      `rand(k + i)` selects the i-th choice among the entries not chosen yet. */
  function SampleSize(pool: seq<Pos>, n: nat, rand: nat -> nat, k: nat): (r: seq<Pos>)
    requires n <= |pool|
    ensures |r| == n
    ensures forall i :: 0 <= i < |r| ==> r[i] in pool
    ensures Distinct(pool) ==> Distinct(r)
    decreases n
  {
    if n == 0 then []
    else
      var j := rand(k) % |pool|;
      var rest := pool[..j] + pool[j + 1..];
      var tail := SampleSize(rest, n - 1, rand, k + 1);
      assert forall x :: x in rest ==> x in pool;
      assert Distinct(pool) ==> Distinct(rest) && pool[j] !in rest by {
        if Distinct(pool) {
          forall x | x in rest ensures x != pool[j] {
            var i :| 0 <= i < |rest| && rest[i] == x;
            if i < j { assert x == pool[i]; } else { assert x == pool[i + 1]; }
          }
          forall a, b | 0 <= a < b < |rest| ensures rest[a] != rest[b] {
            var a', b' := if a < j then a else a + 1, if b < j then b else b + 1;
            assert rest[a] == pool[a'] && rest[b] == pool[b'];
          }
        }
      }
      [pool[j]] + tail
  }

  ghost predicate AllOnBoard(g: Grid, picks: seq<Pos>)
  {
    forall i :: 0 <= i < |picks| ==> InBounds(g.width, g.height, picks[i])
  }

  /** The board with `values[i]` written at `picks[i]`, in order. */
  function Fill(g: Grid, picks: seq<Pos>, values: seq<TileValue>): (h: Grid)
    requires g.Valid() && |values| == |picks| && AllOnBoard(g, picks)
    ensures h.Valid() && h.width == g.width && h.height == g.height
    decreases |picks|
  {
    if picks == [] then g
    else
      var n := |picks| - 1;
      Fill(g, picks[..n], values[..n]).Set(picks[n], Some(values[n]))
  }

  /** Writing distinct empty cells: each gets its value, every other cell keeps its
      own, the number of empty cells drops by the number of cells written, and the
      sum of values grows by at least that number. */
  lemma {:induction false} FillSpec(g: Grid, picks: seq<Pos>, values: seq<TileValue>)
    requires g.Valid() && |values| == |picks| && AllOnBoard(g, picks) && Distinct(picks)
    requires forall i :: 0 <= i < |picks| ==> g.Get(picks[i]) == Some(None)
    ensures forall i :: 0 <= i < |picks| ==> Fill(g, picks, values).Get(picks[i]) == Some(Some(values[i]))
    ensures forall q :: q !in picks ==> Fill(g, picks, values).Get(q) == g.Get(q)
    ensures EmptyCount(Fill(g, picks, values).cells) == EmptyCount(g.cells) - |picks|
    ensures Total(Fill(g, picks, values).cells) >= Total(g.cells) + |picks|
    decreases |picks|
  {
    if picks != [] {
      var n := |picks| - 1;
      var front, last := picks[..n], picks[n];
      FillSpec(g, front, values[..n]);
      var h := Fill(g, front, values[..n]);
      assert last !in front by {
        forall i | 0 <= i < n ensures front[i] != last {
          assert picks[i] != picks[n];
        }
      }
      assert h.Get(last) == Some(None);
      EmptyCountUpdate(h.cells, Index(g.width, g.height, last), Some(values[n]));
      TotalUpdate(h.cells, Index(g.width, g.height, last), Some(values[n]));
      forall i | 0 <= i < |picks|
        ensures Fill(g, picks, values).Get(picks[i]) == Some(Some(values[i]))
      {
        if i < n {
          assert picks[i] == front[i] && picks[i] != last;
        }
      }
    }
  }

  function Min(a: nat, b: nat): nat
  {
    if a < b then a else b
  }

  /** `amount || _.sample(RANDOM_TILE_AMOUNT)`: a missing (zero) amount is drawn from the table. */
  function SpawnAmount(amount: nat, rand: nat -> nat): (n: nat)
    ensures amount > 0 ==> n == amount
    ensures amount == 0 ==> n == 1 || n == 2
  {
    if amount > 0 then amount else Sample(RandomTileAmounts, rand(0))
  }

  /** The value given to the i-th of `n` chosen cells: the draw after the cell draws. */
  function SpawnValue(n: nat, rand: nat -> nat, i: nat): (v: TileValue)
    ensures v == 2 || v == 4
  {
    var v := Sample(RandomTileValues, rand(1 + n + i));
    assert v in RandomTileValues;
    v
  }

  /** The values given to `n` chosen cells, one draw each: every value is a 2 or
      a 4, and a 4 exactly when its draw lands on the one 4 among ten entries. */
  function SpawnValues(n: nat, rand: nat -> nat): (vs: seq<TileValue>)
    ensures |vs| == n
    ensures forall i :: 0 <= i < n ==> vs[i] == 2 || vs[i] == 4
    ensures forall i :: 0 <= i < n ==> (vs[i] == 4 <==> rand(1 + n + i) % 10 == 9)
    ensures forall i :: 0 <= i < n ==> vs[i] == SpawnValue(n, rand, i)
  {
    seq(n, i requires 0 <= i < n => SpawnValue(n, rand, i))
  }

  datatype SpawnResult = SpawnResult(grid: Grid, filled: Option<seq<Pos>>)

  /** `fillRandomTiles(amount)`: `None` when no cell is empty; otherwise
      min(amount, #empty) empty cells chosen at random each receive a 2 or a 4. */
  function Spawn(g: Grid, amount: nat, rand: nat -> nat): (r: SpawnResult)
    requires g.Valid()
    ensures r.grid.Valid() && r.grid.width == g.width && r.grid.height == g.height
  {
    var empty := g.EmptyTiles();
    if |empty| == 0 then SpawnResult(g, None)
    else
      var n := Min(SpawnAmount(amount, rand), |empty|);
      var picks := SampleSize(empty, n, rand, 1);
      assert AllOnBoard(g, picks) by {
        forall i | 0 <= i < |picks| ensures InBounds(g.width, g.height, picks[i]) {
          assert picks[i] in empty;
        }
      }
      SpawnResult(Fill(g, picks, SpawnValues(n, rand)), Some(picks))
  }

  /** What filling `picks` did to board `g`, giving board `h`: the picks are distinct
      cells that were empty and now hold a 2 or a 4, and no other cell changed. */
  ghost predicate FilledWith(g: Grid, h: Grid, picks: seq<Pos>)
    requires g.Valid() && h.Valid()
  {
    Distinct(picks) &&
    (forall i :: 0 <= i < |picks| ==>
       g.Get(picks[i]) == Some(None) && (h.Get(picks[i]) == Some(Some(2)) || h.Get(picks[i]) == Some(Some(4)))) &&
    (forall q :: q !in picks ==> h.Get(q) == g.Get(q))
  }

  lemma SpawnSpec(g: Grid, amount: nat, rand: nat -> nat)
    requires g.Valid()
    ensures Spawn(g, amount, rand).filled.None? <==> EmptyCount(g.cells) == 0
    ensures Spawn(g, amount, rand).filled.None? ==> Spawn(g, amount, rand).grid == g
    ensures Spawn(g, amount, rand).filled.Some? ==>
      |Spawn(g, amount, rand).filled.value| == Min(SpawnAmount(amount, rand), EmptyCount(g.cells)) &&
      FilledWith(g, Spawn(g, amount, rand).grid, Spawn(g, amount, rand).filled.value) &&
      EmptyCount(Spawn(g, amount, rand).grid.cells) == EmptyCount(g.cells) - |Spawn(g, amount, rand).filled.value|
    ensures Spawn(g, amount, rand).filled.Some? ==>
      Total(Spawn(g, amount, rand).grid.cells) >= Total(g.cells) + |Spawn(g, amount, rand).filled.value|
  {
    var empty := g.EmptyTiles();
    if |empty| > 0 {
      assert Distinct(empty) by {
        forall a, b | 0 <= a < b < |empty| ensures empty[a] != empty[b] {
          assert RowMajorLess(empty[a], empty[b]);
        }
      }
      var n := Min(SpawnAmount(amount, rand), |empty|);
      var picks := SampleSize(empty, n, rand, 1);
      var values := SpawnValues(n, rand);
      forall i | 0 <= i < |picks| ensures g.Get(picks[i]) == Some(None) && InBounds(g.width, g.height, picks[i]) {
        assert picks[i] in empty;
      }
      FillSpec(g, picks, values);
    }
  }
}
