/**
 Classic patterns on a bounded grid: the 2x2 block, which never changes,
 and the blinker, three cells in a line that turn from a row into a
 column and back.

 A pattern is given by the list of its live coordinates. On a grid made
 from such a list, the live neighbours of a cell are the listed
 coordinates adjacent to it, so its count can be read off the list.
 */
module Patterns {
  import opened Cells
  import opened Neighbors
  import opened Evolution

  /** A `rows` by `columns` grid whose live cells are exactly the on-grid
      coordinates listed in `live`; every other cell is `NotAlive`. */
  function Pattern(rows: nat, columns: nat, live: seq<(int, int)>): (g: Grid)
    ensures IsRect(g, rows, columns)
    ensures forall i, j :: 0 <= i < rows && 0 <= j < columns ==> (IsAlive(g[i][j]) <==> (i, j) in live)
  {
    seq(rows, i => seq(columns, j => if (i, j) in live then Alive else NotAlive))
  }

  /** No coordinate is listed twice. */
  predicate Distinct(live: seq<(int, int)>) {
    forall p, q :: 0 <= p < q < |live| ==> live[p] != live[q]
  }

  /** `c` is an on-grid neighbour of `(x, y)`. */
  predicate Near(c: (int, int), x: int, y: int, rows: nat, columns: nat) {
    Adjacent(c.0, c.1, x, y) && InBounds(c.0, c.1, rows, columns)
  }

  /** How many listed coordinates are on-grid neighbours of `(x, y)`. */
  function NearCount(live: seq<(int, int)>, x: int, y: int, rows: nat, columns: nat): nat {
    if |live| == 0 then 0
    else (if Near(live[0], x, y, rows, columns) then 1 else 0) + NearCount(live[1..], x, y, rows, columns)
  }

  /** The listed coordinates that are on-grid neighbours of `(x, y)`. */
  ghost function NearSet(live: seq<(int, int)>, x: int, y: int, rows: nat, columns: nat): set<(int, int)> {
    set c | c in live && Near(c, x, y, rows, columns)
  }

  /** Splitting off the first listed coordinate splits the set the same way. */
  lemma NearSetCons(live: seq<(int, int)>, x: int, y: int, rows: nat, columns: nat)
    requires |live| > 0
    ensures NearSet(live, x, y, rows, columns) ==
      NearSet(live[1..], x, y, rows, columns) + (if Near(live[0], x, y, rows, columns) then {live[0]} else {})
  {
    var own: set<(int, int)> := if Near(live[0], x, y, rows, columns) then {live[0]} else {};
    forall c | c in NearSet(live, x, y, rows, columns)
      ensures c in NearSet(live[1..], x, y, rows, columns) + own
    {
      var k :| 0 <= k < |live| && live[k] == c;
      if k > 0 {
        assert live[1..][k - 1] == c;
      }
    }
    forall c | c in NearSet(live[1..], x, y, rows, columns)
      ensures c in live
    {
      var k :| 0 <= k < |live[1..]| && live[1..][k] == c;
      assert live[k + 1] == c;
    }
  }

  /** Without repeats, counting the list is the size of the set. */
  lemma {:induction false} NearSetSize(live: seq<(int, int)>, x: int, y: int, rows: nat, columns: nat)
    requires Distinct(live)
    ensures |NearSet(live, x, y, rows, columns)| == NearCount(live, x, y, rows, columns)
  {
    if |live| == 0 {
      assert NearSet(live, x, y, rows, columns) == {};
    } else {
      var rest := live[1..];
      assert Distinct(rest) by {
        forall p, q | 0 <= p < q < |rest|
          ensures rest[p] != rest[q]
        {
          assert rest[p] == live[p + 1] && rest[q] == live[q + 1];
        }
      }
      NearSetSize(rest, x, y, rows, columns);
      forall q | 0 <= q < |rest|
        ensures rest[q] != live[0]
      {
        assert rest[q] == live[q + 1];
      }
      NearSetCons(live, x, y, rows, columns);
    }
  }

  /** On a grid made from a list of distinct coordinates, the count of a cell
      is the number of listed coordinates around it. */
  lemma PatternNeighborCount(rows: nat, columns: nat, live: seq<(int, int)>, x: int, y: int)
    requires Distinct(live)
    ensures NeighborCount(Pattern(rows, columns, live), x, y, rows, columns) == NearCount(live, x, y, rows, columns)
  {
    var g := Pattern(rows, columns, live);
    NeighborCountIsLiveNeighbors(g, x, y, rows, columns);
    NearSetSize(live, x, y, rows, columns);
    PatternLiveNeighbors(rows, columns, live, x, y);
  }

  /** The live neighbours on a pattern's grid are the listed on-grid neighbours. */
  lemma PatternLiveNeighbors(rows: nat, columns: nat, live: seq<(int, int)>, x: int, y: int)
    ensures LiveNeighbors(Pattern(rows, columns, live), x, y, rows, columns) == NearSet(live, x, y, rows, columns)
  {
    var g := Pattern(rows, columns, live);
    var l := LiveNeighbors(g, x, y, rows, columns);
    var n := NearSet(live, x, y, rows, columns);
    forall c | c in l
      ensures c in n
    {
      assert IsLiveAt(g, c.0, c.1, rows, columns);
    }
    forall c | c in n
      ensures c in l
    {
      assert Adjacent(c.0, c.1, x, y) && IsLiveAt(g, c.0, c.1, rows, columns);
    }
  }

  /** Counting a list with one coordinate in front of `rest`. */
  lemma NearCountCons(c: (int, int), rest: seq<(int, int)>, x: int, y: int, rows: nat, columns: nat)
    ensures NearCount([c] + rest, x, y, rows, columns) ==
      (if Near(c, x, y, rows, columns) then 1 else 0) + NearCount(rest, x, y, rows, columns)
  {
    assert ([c] + rest)[1..] == rest;
  }

  /** The rule holds at `(x, y)` when `target` lists exactly the cells it
      makes alive: three listed neighbours, or a listed cell with two. */
  predicate RuleGives(live: seq<(int, int)>, target: seq<(int, int)>, x: int, y: int, rows: nat, columns: nat) {
    (x, y) in target <==>
      NearCount(live, x, y, rows, columns) == 3 || ((x, y) in live && NearCount(live, x, y, rows, columns) == 2)
  }

  /** A pattern evolves into `target` when the rule gives `target` at every cell. */
  lemma PatternEvolves(rows: nat, columns: nat, live: seq<(int, int)>, target: seq<(int, int)>)
    requires Distinct(live)
    requires forall x, y :: 0 <= x < rows && 0 <= y < columns ==> RuleGives(live, target, x, y, rows, columns)
    ensures NextGen(Pattern(rows, columns, live), rows, columns) == Pattern(rows, columns, target)
  {
    var g := Pattern(rows, columns, live);
    var next := NextGen(g, rows, columns);
    var t := Pattern(rows, columns, target);
    forall x, y | 0 <= x < rows && 0 <= y < columns
      ensures next[x][y] == t[x][y]
    {
      PatternNeighborCount(rows, columns, live, x, y);
      assert RuleGives(live, target, x, y, rows, columns);
    }
    GridExt(next, t, rows, columns);
  }

  /** The 2x2 block with top-left corner `(a, b)`. */
  function Block(a: int, b: int): seq<(int, int)> {
    [(a, b), (a, b + 1), (a + 1, b), (a + 1, b + 1)]
  }

  /** The count of a cell near a block, one listed coordinate at a time. */
  lemma BlockNearCount(a: int, b: int, x: int, y: int, rows: nat, columns: nat)
    ensures NearCount(Block(a, b), x, y, rows, columns) ==
      (if Near((a, b), x, y, rows, columns) then 1 else 0) +
      (if Near((a, b + 1), x, y, rows, columns) then 1 else 0) +
      (if Near((a + 1, b), x, y, rows, columns) then 1 else 0) +
      (if Near((a + 1, b + 1), x, y, rows, columns) then 1 else 0)
  {
    assert Block(a, b) == [(a, b)] + ([(a, b + 1)] + ([(a + 1, b)] + ([(a + 1, b + 1)] + [])));
    NearCountCons((a + 1, b + 1), [], x, y, rows, columns);
    NearCountCons((a + 1, b), [(a + 1, b + 1)], x, y, rows, columns);
    NearCountCons((a, b + 1), [(a + 1, b), (a + 1, b + 1)], x, y, rows, columns);
    NearCountCons((a, b), [(a, b + 1), (a + 1, b), (a + 1, b + 1)], x, y, rows, columns);
  }

  /** The rule keeps a block that fits on the grid at every cell. */
  lemma BlockRule(a: int, b: int, x: int, y: int, rows: nat, columns: nat)
    requires 0 <= a && a + 1 < rows && 0 <= b && b + 1 < columns
    ensures RuleGives(Block(a, b), Block(a, b), x, y, rows, columns)
  {
    BlockNearCount(a, b, x, y, rows, columns);
  }

  /** A 2x2 block anywhere on the grid, even against an edge or in a corner,
      is a still life: the next generation equals the current one. */
  lemma BlockIsStillLife(rows: nat, columns: nat, a: nat, b: nat)
    requires a + 1 < rows && b + 1 < columns
    ensures NextGen(Pattern(rows, columns, Block(a, b)), rows, columns) == Pattern(rows, columns, Block(a, b))
  {
    forall x, y | 0 <= x < rows && 0 <= y < columns
      ensures RuleGives(Block(a, b), Block(a, b), x, y, rows, columns)
    {
      BlockRule(a, b, x, y, rows, columns);
    }
    PatternEvolves(rows, columns, Block(a, b), Block(a, b));
  }

  /** Three live cells in row `a`, centred on column `b`. */
  function Horizontal(a: int, b: int): seq<(int, int)> {
    [(a, b - 1), (a, b), (a, b + 1)]
  }

  /** Three live cells in column `b`, centred on row `a`. */
  function Vertical(a: int, b: int): seq<(int, int)> {
    [(a - 1, b), (a, b), (a + 1, b)]
  }

  /** The count of a cell near a line of three, one coordinate at a time. */
  lemma LineNearCount(p: (int, int), q: (int, int), r: (int, int), x: int, y: int, rows: nat, columns: nat)
    ensures NearCount([p, q, r], x, y, rows, columns) ==
      (if Near(p, x, y, rows, columns) then 1 else 0) +
      (if Near(q, x, y, rows, columns) then 1 else 0) +
      (if Near(r, x, y, rows, columns) then 1 else 0)
  {
    assert [p, q, r] == [p] + ([q] + ([r] + []));
    NearCountCons(r, [], x, y, rows, columns);
    NearCountCons(q, [r], x, y, rows, columns);
    NearCountCons(p, [q, r], x, y, rows, columns);
  }

  /** The rule turns a row of three into a column of three at every cell. */
  lemma HorizontalRule(a: int, b: int, x: int, y: int, rows: nat, columns: nat)
    requires 1 <= a && a + 1 < rows && 1 <= b && b + 1 < columns
    ensures RuleGives(Horizontal(a, b), Vertical(a, b), x, y, rows, columns)
  {
    LineNearCount((a, b - 1), (a, b), (a, b + 1), x, y, rows, columns);
  }

  /** The rule turns a column of three into a row of three at every cell. */
  lemma VerticalRule(a: int, b: int, x: int, y: int, rows: nat, columns: nat)
    requires 1 <= a && a + 1 < rows && 1 <= b && b + 1 < columns
    ensures RuleGives(Vertical(a, b), Horizontal(a, b), x, y, rows, columns)
  {
    LineNearCount((a - 1, b), (a, b), (a + 1, b), x, y, rows, columns);
  }

  /** A row of three live cells turns into a column of three. */
  lemma BlinkerTurnsVertical(rows: nat, columns: nat, a: nat, b: nat)
    requires 1 <= a && a + 1 < rows
    requires 1 <= b && b + 1 < columns
    ensures NextGen(Pattern(rows, columns, Horizontal(a, b)), rows, columns) == Pattern(rows, columns, Vertical(a, b))
  {
    forall x, y | 0 <= x < rows && 0 <= y < columns
      ensures RuleGives(Horizontal(a, b), Vertical(a, b), x, y, rows, columns)
    {
      HorizontalRule(a, b, x, y, rows, columns);
    }
    PatternEvolves(rows, columns, Horizontal(a, b), Vertical(a, b));
  }

  /** A column of three live cells turns into a row of three. */
  lemma BlinkerTurnsHorizontal(rows: nat, columns: nat, a: nat, b: nat)
    requires 1 <= a && a + 1 < rows
    requires 1 <= b && b + 1 < columns
    ensures NextGen(Pattern(rows, columns, Vertical(a, b)), rows, columns) == Pattern(rows, columns, Horizontal(a, b))
  {
    forall x, y | 0 <= x < rows && 0 <= y < columns
      ensures RuleGives(Vertical(a, b), Horizontal(a, b), x, y, rows, columns)
    {
      VerticalRule(a, b, x, y, rows, columns);
    }
    PatternEvolves(rows, columns, Vertical(a, b), Horizontal(a, b));
  }

  /** The blinker oscillates with period two: two generations bring the row
      of three back, and one does not. */
  lemma BlinkerHasPeriodTwo(rows: nat, columns: nat, a: nat, b: nat)
    requires 1 <= a && a + 1 < rows
    requires 1 <= b && b + 1 < columns
    ensures var h := Pattern(rows, columns, Horizontal(a, b));
            NextGen(h, rows, columns) != h &&
            NextGen(NextGen(h, rows, columns), rows, columns) == h
  {
    var h := Pattern(rows, columns, Horizontal(a, b));
    var v := Pattern(rows, columns, Vertical(a, b));
    assert v != h by {
      assert IsAlive(v[a - 1][b]) && !IsAlive(h[a - 1][b]);
    }
    assert NextGen(h, rows, columns) == v by {
      BlinkerTurnsVertical(rows, columns, a, b);
    }
    assert NextGen(v, rows, columns) == h by {
      BlinkerTurnsHorizontal(rows, columns, a, b);
    }
  }
}
