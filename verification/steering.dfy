/**
 * The direction rule of Game.handle_input: among the arrow keys held down,
 * the first in the order Up, Down, Left, Right that does not turn the snake
 * straight back on itself becomes the new direction.
 */
module Steering {
  import opened Grid
  import SnakeBody

  /** Which arrow keys are held during a frame. */
  datatype Keys = Keys(up: bool, down: bool, left: bool, right: bool)

  /** Whether the arrow key for direction `d` is held. */
  function Pressed(k: Keys, d: Direction): bool {
    match d
    case Up => k.up
    case Down => k.down
    case Left => k.left
    case Right => k.right
  }

  /** The order in which held keys are considered. */
  const Priority: seq<Direction> := [Up, Down, Left, Right]

  /** Position of a direction in `Priority`. */
  function PriorityRank(d: Direction): (i: nat)
    ensures i < |Priority| && Priority[i] == d
  {
    match d
    case Up => 0
    case Down => 1
    case Left => 2
    case Right => 3
  }

  /** A held key the rule may honour: it is not the reverse of the current heading. */
  predicate Allowed(current: Direction, k: Keys, d: Direction) {
    Pressed(k, d) && d != Opposite(current)
  }

  /** The heading after the keys of one frame have been read. */
  function Steer(current: Direction, k: Keys): (r: Direction)
    ensures r != Opposite(current)
    ensures r == current || Allowed(current, k, r)
    ensures (exists d: Direction :: Allowed(current, k, d)) ==>
              Allowed(current, k, r) &&
              forall d: Direction :: PriorityRank(d) < PriorityRank(r) ==> !Allowed(current, k, d)
  {
    if k.up && current != Down then Up
    else if k.down && current != Up then Down
    else if k.left && current != Right then Left
    else if k.right && current != Left then Right
    else current
  }

  /** Reference rule: scan `candidates` in order, keep the first allowed one. */
  function FirstAllowed(current: Direction, k: Keys, candidates: seq<Direction>): Direction
    decreases |candidates|
  {
    if |candidates| == 0 then current
    else if Allowed(current, k, candidates[0]) then candidates[0]
    else FirstAllowed(current, k, candidates[1..])
  }

  /** The chain of `elif`s is the priority scan over Up, Down, Left, Right. */
  lemma SteerIsPriorityScan(current: Direction, k: Keys)
    ensures Steer(current, k) == FirstAllowed(current, k, Priority)
  {
  }

  /**
   * Pressing only the key that reverses the heading changes nothing; any
   * other single key is obeyed.
   */
  lemma SingleKey(current: Direction, d: Direction, k: Keys)
    requires Pressed(k, d)
    requires forall e: Direction :: e != d ==> !Pressed(k, e)
    ensures Steer(current, k) == if d == Opposite(current) then current else d
  {
  }

  /**
   * Steering right after a move can never send the head back onto the neck:
   * the chosen direction is never the reverse of the last one.
   */
  lemma SteeredMoveAvoidsNeck(s: SnakeBody.Snake, k: Keys)
    requires |s.body| >= 2 && InBounds(s.body[0])
    requires Step(s.body[0], Opposite(s.direction)) == s.body[1]
    ensures SnakeBody.Move(s.(direction := Steer(s.direction, k))).body[0] != s.body[1]
  {
  }
}
