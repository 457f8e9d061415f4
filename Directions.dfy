/**
 * Grid offsets and the opposite-direction operator (Assets/Vector2Extensions.cs).
 *
 * The source stores a direction as a floating-point Vector2 whose components
 * are always -1, 0 or 1; here it is a pair of integers.  `x` is the column
 * step and `y` the row step, as in `new Vector2(column, row) + direction`.
 */
module Directions {

  datatype Dir = Dir(x: int, y: int)

  /** `Vector2.zero`, the answer for "no direction". */
  const Zero: Dir := Dir(0, 0)

  /** The eight offsets the grid builder visits, in the order it visits them. */
  const Eight: seq<Dir> :=
    [Dir(-1, -1), Dir(0, -1), Dir(1, -1),
     Dir(-1, 0),              Dir(1, 0),
     Dir(-1, 1),  Dir(0, 1),  Dir(1, 1)]

  predicate IsDirection(d: Dir) {
    d in Eight
  }

  /** `GetOpposite`: the vector multiplied by -1. */
  function Opposite(d: Dir): (r: Dir)
    ensures r == d <==> d == Zero
  {
    Dir(-d.x, -d.y)
  }

  /** The opposite of each of the eight directions is again one of the eight. */
  lemma OppositeIsDirection(d: Dir)
    requires IsDirection(d)
    ensures IsDirection(Opposite(d))
  {
  }

  lemma OppositeNegates(d: Dir)
    ensures Opposite(d).x == -d.x && Opposite(d).y == -d.y
  {
  }

  lemma OppositeInvolution(d: Dir)
    ensures Opposite(Opposite(d)) == d
  {
  }

  lemma OppositeOfZero()
    ensures Opposite(Zero) == Zero
  {
  }

  /** A unit step other than standing still. */
  predicate IsOffset(d: Dir) {
    d != Zero && -1 <= d.x <= 1 && -1 <= d.y <= 1
  }

  /** The eight directions are exactly the non-zero offsets with components in {-1, 0, 1}. */
  lemma DirectionsAreUnitOffsets(d: Dir)
    ensures IsDirection(d) <==> IsOffset(d)
  {
  }

  /** The place of an offset in `Eight`: the 3 by 3 block read row by row, centre skipped. */
  function Rank(d: Dir): int {
    var r := 3 * (d.y + 1) + (d.x + 1);
    if r > 4 then r - 1 else r
  }

  /** `Rank` numbers `Eight` in its own order. */
  lemma RankOfEight(i: int)
    requires 0 <= i < |Eight|
    ensures Rank(Eight[i]) == i && IsOffset(Eight[i])
  {
  }

  /** Distinct offsets have distinct ranks between 0 and 7. */
  lemma RankInjective(d: Dir, e: Dir)
    requires IsOffset(d) && IsOffset(e)
    ensures 0 <= Rank(d) < |Eight|
    ensures Rank(d) == Rank(e) ==> d == e
  {
  }

  /** No direction is listed twice, so a cell visits each of its eight slots once. */
  lemma EightAreDistinct()
    ensures forall i, j :: 0 <= i < j < |Eight| ==> Eight[i] != Eight[j]
  {
  }
}
