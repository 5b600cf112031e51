/**
 * The closed set of fruit kinds and the points each is worth (Food.points
 * and Food.get_points). The program keys its table by the fruit's name, so a
 * name outside the table would raise a lookup error; `PointsOf` models that
 * failure as `None`.
 */
module Fruits {
  import opened Wrappers

  datatype Fruit = Apple | Orange | Blueberry | Strawberry | Grape

  /** All fruit kinds, in the order the points table lists them. */
  const AllFruits: seq<Fruit> := [Apple, Orange, Blueberry, Strawberry, Grape]

  /** The keys of the points table, in table order. */
  const TableKeys: seq<string> := ["apple", "orange", "blueberry", "strawberry", "grape"]

  /** The key under which the program stores a fruit kind. */
  function Name(f: Fruit): (s: string)
    ensures s == TableKeys[Rank(f)]
  {
    match f
    case Apple => "apple"
    case Orange => "orange"
    case Blueberry => "blueberry"
    case Strawberry => "strawberry"
    case Grape => "grape"
  }

  /** The fruit kind a table key names, if any. */
  function FromName(s: string): (r: Option<Fruit>)
    ensures r.Some? ==> Name(r.value) == s
    ensures r.None? ==> forall f: Fruit :: Name(f) != s
  {
    if s == "apple" then Some(Apple)
    else if s == "orange" then Some(Orange)
    else if s == "blueberry" then Some(Blueberry)
    else if s == "strawberry" then Some(Strawberry)
    else if s == "grape" then Some(Grape)
    else None
  }

  /** Position of a fruit kind in the points table. */
  function Rank(f: Fruit): (i: nat)
    ensures i < |AllFruits| && AllFruits[i] == f
  {
    match f
    case Apple => 0
    case Orange => 1
    case Blueberry => 2
    case Strawberry => 3
    case Grape => 4
  }

  /** Points awarded for eating a fruit of kind `f`. */
  function Points(f: Fruit): (p: nat)
    ensures p == 10 + 5 * Rank(f)
  {
    match f
    case Apple => 10
    case Orange => 15
    case Blueberry => 20
    case Strawberry => 25
    case Grape => 30
  }

  /** The table lookup by key: `None` where the program would fail. */
  function PointsOf(name: string): (r: Option<nat>)
    ensures r.Some? <==> exists f: Fruit :: Name(f) == name
    ensures forall f: Fruit :: Name(f) == name ==> r == Some(Points(f))
  {
    match FromName(name)
    case Some(f) => Some(Points(f))
    case None => None
  }

  /** Every fruit kind's key leads back to it. */
  lemma NameRoundTrip(f: Fruit)
    ensures FromName(Name(f)) == Some(f)
  {
  }

  /** Distinct fruit kinds are worth distinct points, increasing along the table. */
  lemma PointsStrictlyIncreasing(i: nat, j: nat)
    requires i < j < |AllFruits|
    ensures Points(AllFruits[i]) < Points(AllFruits[j])
  {
  }

  /** Every award is a positive multiple of five between 10 and 30. */
  lemma PointsRange(f: Fruit)
    ensures 10 <= Points(f) <= 30 && Points(f) % 5 == 0
  {
  }
}
