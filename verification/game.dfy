/**
 * The game (class Game without drawing, sound and event polling): the
 * snake, the food on the board, the score and the game-over flag, with the
 * per-frame input step and the tick transition.
 */
module GameState {
  import opened Grid
  import opened Fruits
  import opened SnakeBody
  import opened Steering
  import opened FoodSpawn
  import opened Wrappers

  datatype Game = Game(snake: Snake, food: Food, score: nat, gameOver: bool)

  /**
   * What holds of every reachable game: the body is non-empty and on the
   * grid, the food is on the grid and off the snake, the segments behind the
   * head never repeat, the game is over exactly when the head sits on one of
   * them, and the score is a multiple of 5, as every fruit's points are.
   */
  predicate Inv(g: Game) {
    && |g.snake.body| > 0
    && AllInBounds(g.snake.body)
    && FreeFor(g.snake.body, g.food)
    && Distinct(g.snake.body[1..])
    && (g.gameOver <==> g.snake.body[0] in g.snake.body[1..])
    && g.score % 5 == 0
  }

  /**
   * Game.reset: a fresh snake, food from spawn_food (here `spawned`, which
   * must be free for the fresh snake), score 0, not over.
   */
  function Reset(spawned: Food): (g: Game)
    requires FreeFor(SnakeBody.Reset().body, spawned)
    ensures Inv(g)
    ensures g.score == 0 && !g.gameOver && g.food == spawned
    ensures g.snake.body == [Cell(5, 7)] && g.snake.direction == Right && !g.snake.growthPending
  {
    Game(SnakeBody.Reset(), spawned, 0, false)
  }

  /** The head lands on the food in this tick's move. */
  function Eats(g: Game): (r: bool)
    requires |g.snake.body| > 0
    ensures r <==> Step(g.snake.body[0], g.snake.direction) == g.food.pos
  {
    Move(g.snake).body[0] == g.food.pos
  }

  /**
   * Game.update. A finished game does not change. Otherwise the snake moves;
   * if its head reaches the food it grows, the fruit's points are added and
   * new food is spawned (`spawned`, free for the moved body); finally the
   * game is over if the head hit the body.
   */
  function Update(g: Game, spawned: Food): (r: Game)
    requires !g.gameOver ==> |g.snake.body| > 0
    requires !g.gameOver && Eats(g) ==> FreeFor(Move(g.snake).body, spawned)
    ensures g.gameOver ==> r == g
    ensures !g.gameOver ==>
              && r.score == g.score + (if Eats(g) then Points(g.food.fruit) else 0)
              && r.food == (if Eats(g) then spawned else g.food)
              && r.snake.body == Move(g.snake).body
              && r.snake.direction == g.snake.direction
              && r.snake.growthPending == Eats(g)
              && (r.gameOver <==> CheckCollision(r.snake))
    ensures r.score >= g.score
  {
    if g.gameOver then g
    else
      var moved := Move(g.snake);
      var ate := moved.body[0] == g.food.pos;
      var snake := if ate then Grow(moved) else moved;
      var score := if ate then g.score + Points(g.food.fruit) else g.score;
      var food := if ate then spawned else g.food;
      Game(snake, food, score, CheckCollision(snake))
  }

  /**
   * The state part of Game.handle_input: a restart request is honoured only
   * once the game is over (and resets it with `spawned` as the new food);
   * then, unless the game is over, the held keys steer the snake.
   */
  function HandleInput(g: Game, restart: bool, keys: Keys, spawned: Food): (r: Game)
    requires restart && g.gameOver ==> FreeFor(SnakeBody.Reset().body, spawned)
    ensures g.gameOver && !restart ==> r == g
    ensures g.gameOver && restart ==>
              r.score == 0 && !r.gameOver && r.food == spawned &&
              r.snake.body == [Cell(5, 7)] && !r.snake.growthPending &&
              r.snake.direction == Steer(Right, keys)
    ensures !g.gameOver ==> r == g.(snake := g.snake.(direction := Steer(g.snake.direction, keys)))
    ensures !g.gameOver ==> r.snake.direction != Opposite(g.snake.direction)
  {
    var g1 := if restart && g.gameOver then Reset(spawned) else g;
    if g1.gameOver then g1
    else g1.(snake := g1.snake.(direction := Steer(g1.snake.direction, keys)))
  }

  /** A new game satisfies the invariant. */
  lemma ResetEstablishesInv(spawned: Food)
    requires FreeFor(SnakeBody.Reset().body, spawned)
    ensures Inv(Reset(spawned))
  {
  }

  /** A tick preserves the invariant. */
  lemma UpdatePreservesInv(g: Game, spawned: Food)
    requires Inv(g)
    requires !g.gameOver && Eats(g) ==> FreeFor(Move(g.snake).body, spawned)
    ensures Inv(Update(g, spawned))
  {
  }

  /** Input handling preserves the invariant. */
  lemma HandleInputPreservesInv(g: Game, restart: bool, keys: Keys, spawned: Food)
    requires Inv(g)
    requires restart && g.gameOver ==> FreeFor(SnakeBody.Reset().body, spawned)
    ensures Inv(HandleInput(g, restart, keys, spawned))
  {
  }

  /**
   * Length accounting: body length plus pending growth goes up by one
   * exactly when food is eaten, and by nothing otherwise.
   */
  lemma UpdateLengthAccounting(g: Game, spawned: Food)
    requires |g.snake.body| > 0 && !g.gameOver
    requires Eats(g) ==> FreeFor(Move(g.snake).body, spawned)
    ensures var r := Update(g, spawned);
            |r.snake.body| + (if r.snake.growthPending then 1 else 0)
            == |g.snake.body| + (if g.snake.growthPending then 1 else 0) + (if Eats(g) then 1 else 0)
  {
  }

  /**
   * While the game runs the snake has no repeated cell, and the current food
   * has a cell of its own, so the snake covers fewer cells than the grid.
   * This does not leave room for the next food: see `NoRoomAfterEating`.
   */
  lemma RunningSnakeLeavesRoom(g: Game)
    requires Inv(g) && !g.gameOver
    ensures Distinct(g.snake.body)
    ensures |g.snake.body| < Width * Height
  {
    CollisionIsDuplicate(g.snake);
    RoomForOneMore(g.snake.body, g.food.pos);
  }

  /**
   * A running snake of 299 segments with growth pending that reaches the
   * food covers the whole grid after the move: spawn_food then has no free
   * cell to find, and `Update`'s requirement on the new food cannot be met.
   */
  lemma NoRoomAfterEating(g: Game)
    requires Inv(g) && !g.gameOver && g.snake.growthPending
    requires |g.snake.body| == Width * Height - 1 && Eats(g)
    ensures forall c: Cell :: InBounds(c) ==> c in Move(g.snake).body
  {
    var s := g.snake;
    var moved := Move(s).body;
    CollisionIsDuplicate(s);
    MoveCollisionIff(s);
    MoveStaysInBounds(s);
    assert Distinct(moved) by {
      assert moved[0] == g.food.pos && moved[1..] == s.body;
      CollisionIsDuplicate(Move(s));
    }
    forall c: Cell | InBounds(c)
      ensures c in moved
    {
      if c !in moved {
        RoomForOneMore(moved, c);
      }
    }
  }

  /**
   * Food produced by the rejection loop for the moved snake is what `Update`
   * needs, and the resulting game keeps the invariant.
   */
  lemma SampledFoodFeedsUpdate(g: Game, draws: seq<Cell>, fruit: Fruit)
    requires Inv(g) && !g.gameOver && Eats(g)
    requires AllInBounds(draws)
    requires SpawnFood(Move(g.snake).body, draws, fruit).Some?
    ensures var food := SpawnFood(Move(g.snake).body, draws, fruit).value;
            Inv(Update(g, food)) && Update(g, food).food == food
  {
    UpdatePreservesInv(g, SpawnFood(Move(g.snake).body, draws, fruit).value);
  }

  /**
   * One tick whose new food, when needed, comes from the deterministic
   * search: it fails only when the snake eats and then covers every cell.
   */
  method UpdateWithSearch(g: Game, fruit: Fruit) returns (r: Option<Game>)
    requires Inv(g)
    ensures r.Some? ==> Inv(r.value)
    ensures r.Some? && g.gameOver ==> r.value == g
    ensures r.Some? && !g.gameOver ==>
              r.value.score == g.score + (if Eats(g) then Points(g.food.fruit) else 0) &&
              (r.value.gameOver <==> CheckCollision(r.value.snake))
    ensures r.None? ==> !g.gameOver && Eats(g) &&
                        forall c: Cell :: InBounds(c) ==> c in Move(g.snake).body
  {
    if g.gameOver || !Eats(g) {
      UpdatePreservesInv(g, g.food);
      return Some(Update(g, g.food));
    }
    var cell := FindFreeCell(Move(g.snake).body);
    match cell
    case None =>
      return None;
    case Some(c) =>
      UpdatePreservesInv(g, Food(c, fruit));
      return Some(Update(g, Food(c, fruit)));
  }

  /** Eating an apple and then a grape from a fresh score gives 40 points. */
  lemma AppleThenGrape(g: Game, s1: Food, s2: Food)
    requires !g.gameOver && g.score == 0 && g.food.fruit == Apple
    requires |g.snake.body| > 0 && Eats(g) && FreeFor(Move(g.snake).body, s1)
    requires var g1 := Update(g, s1);
             !g1.gameOver && g1.food.fruit == Grape && Eats(g1) &&
             FreeFor(Move(g1.snake).body, s2)
    ensures Update(Update(g, s1), s2).score == 40
  {
  }
}
