/**
 * Food on the board (class Food and Game.spawn_food). The program draws
 * random cells until one is not covered by the snake, then picks a random
 * fruit kind. The random source is not modelled: `Sample` runs the same
 * rejection loop over a given finite stream of draws, and `FindFreeCell`
 * is a deterministic search that always finds a free cell when one exists.
 */
module FoodSpawn {
  import opened Wrappers
  import opened Grid
  import opened Fruits
  import SnakeBody

  datatype Food = Food(pos: Cell, fruit: Fruit)

  /** A food item may be placed next to `body`: on the grid and not under the snake. */
  predicate FreeFor(body: seq<Cell>, food: Food) {
    InBounds(food.pos) && food.pos !in body
  }

  /**
   * The rejection loop: the first draw not covered by `body`, or `None` when
   * every draw in the stream was covered (the program would keep drawing).
   */
  function Sample(body: seq<Cell>, draws: seq<Cell>): (r: Option<Cell>)
    ensures r.None? <==> forall i :: 0 <= i < |draws| ==> draws[i] in body
    ensures r.Some? ==> r.value !in body
    ensures r.Some? ==> exists i :: 0 <= i < |draws| && draws[i] == r.value &&
                                    forall j :: 0 <= j < i ==> draws[j] in body
    decreases |draws|
  {
    if |draws| == 0 then None
    else if draws[0] !in body then Some(draws[0])
    else Sample(body, draws[1..])
  }

  /**
   * spawn_food: a free cell from the draws and the given fruit kind. Each
   * draw comes from randint over the grid, so each lies in bounds.
   */
  function SpawnFood(body: seq<Cell>, draws: seq<Cell>, fruit: Fruit): (r: Option<Food>)
    requires AllInBounds(draws)
    ensures r.Some? ==> FreeFor(body, r.value) && r.value.fruit == fruit
    ensures r.None? <==> forall i :: 0 <= i < |draws| ==> draws[i] in body
  {
    match Sample(body, draws)
    case Some(c) => Some(Food(c, fruit))
    case None => None
  }

  /** Row-by-row search of the grid for a cell `body` does not cover. */
  method FindFreeCell(body: seq<Cell>) returns (r: Option<Cell>)
    ensures r.Some? ==> InBounds(r.value) && r.value !in body
    ensures r.None? ==> forall c: Cell :: InBounds(c) ==> c in body
  {
    var y := 0;
    while y < Height
      invariant 0 <= y <= Height
      invariant forall c: Cell :: InBounds(c) && c.y < y ==> c in body
    {
      var x := 0;
      while x < Width
        invariant 0 <= x <= Width
        invariant forall c: Cell :: InBounds(c) && (c.y < y || (c.y == y && c.x < x)) ==> c in body
      {
        if Cell(x, y) !in body {
          return Some(Cell(x, y));
        }
        x := x + 1;
      }
      y := y + 1;
    }
    return None;
  }

  /** Every cell of the grid, row by row. */
  function GridCells(): (cs: seq<Cell>)
    ensures |cs| == Width * Height
    ensures AllInBounds(cs) && SnakeBody.Distinct(cs)
  {
    var cs := seq(Width * Height, i requires 0 <= i < Width * Height => Cell(i % Width, i / Width));
    assert forall i, j :: 0 <= i < j < |cs| ==> cs[i] != cs[j] by {
      forall i, j | 0 <= i < j < |cs|
        ensures cs[i] != cs[j]
      {
        assert i == Width * (i / Width) + i % Width;
        assert j == Width * (j / Width) + j % Width;
      }
    }
    cs
  }

  /** The cells occurring in a sequence. */
  function Elements(cs: seq<Cell>): set<Cell> {
    set c | c in cs
  }

  /** A sequence without duplicates has as many elements as its length. */
  lemma {:induction false} DistinctElements(cs: seq<Cell>)
    requires SnakeBody.Distinct(cs)
    ensures |Elements(cs)| == |cs|
  {
    if |cs| > 0 {
      DistinctElements(cs[1..]);
      assert Elements(cs) == Elements(cs[1..]) + {cs[0]};
      assert cs[0] !in Elements(cs[1..]);
    }
  }

  /** A sequence has at most as many distinct elements as its length. */
  lemma {:induction false} ElementsBound(cs: seq<Cell>)
    ensures |Elements(cs)| <= |cs|
  {
    if |cs| > 0 {
      ElementsBound(cs[1..]);
      assert Elements(cs) == Elements(cs[1..]) + {cs[0]};
    }
  }

  lemma SubsetCard(a: set<Cell>, b: set<Cell>)
    requires a <= b
    ensures |a| <= |b|
  {
    assert b == a + (b - a);
  }

  /**
   * As long as the snake is shorter than the number of grid cells there is
   * a free cell, so the rejection loop has something to find.
   */
  lemma FreeCellExists(body: seq<Cell>)
    requires |body| < Width * Height
    ensures exists c: Cell :: InBounds(c) && c !in body
  {
    var cells := GridCells();
    if forall c: Cell :: InBounds(c) ==> c in body {
      assert Elements(cells) <= Elements(body) by {
        forall c | c in Elements(cells) ensures c in Elements(body) {
          var i :| 0 <= i < |cells| && cells[i] == c;
        }
      }
      DistinctElements(cells);
      ElementsBound(body);
      SubsetCard(Elements(cells), Elements(body));
      assert false;
    }
  }

  /**
   * Distinct grid cells plus one more free cell fit on the grid, so there
   * are fewer of them than grid cells.
   */
  lemma RoomForOneMore(cs: seq<Cell>, c: Cell)
    requires AllInBounds(cs) && SnakeBody.Distinct(cs)
    requires InBounds(c) && c !in cs
    ensures |cs| < Width * Height
  {
    var cells := Elements(cs) + {c};
    var grid := GridCells();
    assert cells <= Elements(grid) by {
      forall e | e in cells ensures e in Elements(grid) {
        assert InBounds(e);
        var i := e.y * Width + e.x;
        assert grid[i] == e;
      }
    }
    DistinctElements(cs);
    DistinctElements(grid);
    SubsetCard(cells, Elements(grid));
  }

  /**
   * When the snake covers every cell, no stream of draws ever yields food:
   * the program's loop would draw forever.
   */
  lemma FullBoardNeverSpawns(body: seq<Cell>, draws: seq<Cell>, fruit: Fruit)
    requires forall c: Cell :: InBounds(c) ==> c in body
    requires AllInBounds(draws)
    ensures SpawnFood(body, draws, fruit).None?
  {
  }
}
