/**
 * The snake (class Snake): its body, head first, the direction it travels
 * in, and a single flag saying that the next move should not drop the tail.
 */
module SnakeBody {
  import opened Grid

  datatype Snake = Snake(body: seq<Cell>, direction: Direction, growthPending: bool)

  /** Where a fresh snake starts: (GRID_WIDTH // 4, GRID_HEIGHT // 2). */
  const StartCell: Cell := Cell(Width / 4, Height / 2)

  /** No cell occurs twice. */
  predicate Distinct(cs: seq<Cell>) {
    forall i, j :: 0 <= i < j < |cs| ==> cs[i] != cs[j]
  }

  /** The snake of a new game: one segment at (5, 7), heading right, not growing. */
  function Reset(): (s: Snake)
    ensures s.body == [Cell(5, 7)] && AllInBounds(s.body)
    ensures s.direction == Right && !s.growthPending
  {
    Snake([StartCell], Right, false)
  }

  /**
   * Advances the snake one cell. The tail is dropped unless growth is
   * pending, in which case the flag is consumed instead; then the new head is
   * put in front. The program indexes `body[0]` and pops the last element, so
   * the body must not be empty.
   */
  function Move(s: Snake): (r: Snake)
    requires |s.body| > 0
    ensures |r.body| == |s.body| + (if s.growthPending then 1 else 0)
    ensures InBounds(r.body[0])
    ensures r.body[0] == Step(s.body[0], s.direction)
    ensures r.body[1..] == if s.growthPending then s.body else s.body[..|s.body| - 1]
    ensures r.direction == s.direction && !r.growthPending
  {
    var newHead := Step(s.body[0], s.direction);
    var kept := if s.growthPending then s.body else s.body[..|s.body| - 1];
    Snake([newHead] + kept, s.direction, false)
  }

  /** Asks for one extra segment on the next move. */
  function Grow(s: Snake): (r: Snake)
    ensures r.growthPending
    ensures r.body == s.body && r.direction == s.direction
  {
    s.(growthPending := true)
  }

  /** The head has run into another segment of the body. */
  function CheckCollision(s: Snake): (r: bool)
    requires |s.body| > 0
    ensures r <==> exists i :: 1 <= i < |s.body| && s.body[i] == s.body[0]
  {
    s.body[0] in s.body[1..]
  }

  /** The body minus its head: the part a move keeps (or shortens by the tail). */
  function Kept(s: Snake): (k: seq<Cell>)
    requires |s.body| > 0
    ensures |k| == |s.body| - (if s.growthPending then 0 else 1)
    ensures forall i :: 0 <= i < |k| ==> k[i] == s.body[i]
  {
    if s.growthPending then s.body else s.body[..|s.body| - 1]
  }

  /** A move keeps every segment on the grid. */
  lemma MoveStaysInBounds(s: Snake)
    requires |s.body| > 0 && AllInBounds(s.body)
    ensures AllInBounds(Move(s).body)
  {
  }

  /**
   * Calling `Grow` several times before a move adds only one segment: the
   * flag does not count.
   */
  lemma GrowTwiceIsGrowOnce(s: Snake)
    requires |s.body| > 0
    ensures Grow(Grow(s)) == Grow(s)
    ensures Move(Grow(Grow(s))) == Move(Grow(s))
    ensures |Move(Grow(Grow(s))).body| == |s.body| + 1
  {
  }

  /** A collision is exactly a duplicate cell, once the rest of the body has none. */
  lemma CollisionIsDuplicate(s: Snake)
    requires |s.body| > 0 && Distinct(s.body[1..])
    ensures CheckCollision(s) <==> !Distinct(s.body)
  {
  }

  /**
   * After a move from a body with no duplicates, the kept segments still have
   * none, and the snake has collided exactly when the new head lands on one
   * of the kept segments.
   */
  lemma MoveCollisionIff(s: Snake)
    requires |s.body| > 0 && Distinct(s.body)
    ensures Distinct(Move(s).body[1..])
    ensures CheckCollision(Move(s)) <==> Step(s.body[0], s.direction) in Kept(s)
  {
  }

  /**
   * The tail moves out of the way first: heading into the cell the tail is
   * leaving is not a collision.
   */
  lemma ChasingTheTailIsSafe(s: Snake)
    requires |s.body| >= 2 && Distinct(s.body) && !s.growthPending
    requires Step(s.body[0], s.direction) == s.body[|s.body| - 1]
    ensures !CheckCollision(Move(s))
  {
  }

  /**
   * Growing is felt: with growth pending, a move onto the tail's cell is a
   * collision, because the tail stays.
   */
  lemma GrowingIntoTheTailCollides(s: Snake)
    requires |s.body| >= 2 && s.growthPending
    requires Step(s.body[0], s.direction) == s.body[|s.body| - 1]
    ensures CheckCollision(Move(s))
  {
  }

  /**
   * Right after a move the second segment sits one step behind the head,
   * against the direction of travel: it is the snake's neck.
   */
  lemma MoveLeavesNeckBehind(s: Snake)
    requires |s.body| > 0 && InBounds(s.body[0])
    requires |Move(s).body| >= 2
    ensures Step(Move(s).body[0], Opposite(s.direction)) == Move(s).body[1]
  {
  }

  /** A new game's first move goes one cell right, and growing adds the old head back. */
  lemma OpeningMoves()
    ensures Move(Reset()).body == [Cell(6, 7)]
    ensures Move(Grow(Move(Reset()))).body == [Cell(7, 7), Cell(6, 7)]
  {
  }
}
