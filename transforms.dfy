/**
  Coordinate mapping along a chain of containers.

  A widget's ancestor chain is the sequence of containers met by following
  parent links upwards, nearest first. Each container knows how to map a point
  between its own space and the space of one of its children; these per-child
  maps are taken abstractly, as functions of (container, child, point).
*/
module Transforms {

  /** A point; coordinates are exact reals rather than floats. */
  datatype Point = Point(x: real, y: real)

  /** A per-child point map of a container: (container, child, point) to point. */
  type Transform<!W> = (W, W, Point) -> Point

  /**
    Maps `p` from the space of `self` to the space of the outermost container of
    `chain`, where `chain[0]` is the container of `self` and each later element is
    the container of the one before it. This is the order in which
    WidgetPointToScreen applies TransformPointFromChild.
  */
  function Lift<W>(fromChild: Transform<W>, self: W, chain: seq<W>, p: Point): (r: Point)
    ensures chain == [] ==> r == p
    decreases |chain|
  {
    if chain == [] then p
    else Lift(fromChild, chain[0], chain[1..], fromChild(chain[0], self, p))
  }

  /**
    Maps `p` from the space of the outermost container of `chain` down to the
    space of `self`: the outermost container's child map is applied first and
    `chain[0]`'s map to `self` last, as in ScreenPointToWidget.
  */
  function Lower<W>(toChild: Transform<W>, self: W, chain: seq<W>, p: Point): (r: Point)
    ensures chain == [] ==> r == p
    decreases |chain|
  {
    if chain == [] then p
    else toChild(chain[0], self, Lower(toChild, chain[0], chain[1..], p))
  }

  /** Mapping into a child and back out again gives the original point. */
  ghost predicate FromUndoesTo<W(!new)>(toChild: Transform<W>, fromChild: Transform<W>) {
    forall c, ch, p :: fromChild(c, ch, toChild(c, ch, p)) == p
  }

  /** Mapping out of a child and back in again gives the original point. */
  ghost predicate ToUndoesFrom<W(!new)>(toChild: Transform<W>, fromChild: Transform<W>) {
    forall c, ch, p :: toChild(c, ch, fromChild(c, ch, p)) == p
  }

  /**
    Screen-to-widget followed by widget-to-screen is the identity when every
    per-child map is undone by its partner: the property the debug sanity check
    of ScreenPointToWidget tests.
  */
  lemma {:induction false} LiftUndoesLower<W(!new)>(
    toChild: Transform<W>, fromChild: Transform<W>, self: W, chain: seq<W>, p: Point)
    requires FromUndoesTo(toChild, fromChild)
    ensures Lift(fromChild, self, chain, Lower(toChild, self, chain, p)) == p
    decreases |chain|
  {
    if chain != [] {
      LiftUndoesLower(toChild, fromChild, chain[0], chain[1..], p);
    }
  }

  /** Widget-to-screen followed by screen-to-widget is the identity as well. */
  lemma {:induction false} LowerUndoesLift<W(!new)>(
    toChild: Transform<W>, fromChild: Transform<W>, self: W, chain: seq<W>, p: Point)
    requires ToUndoesFrom(toChild, fromChild)
    ensures Lower(toChild, self, chain, Lift(fromChild, self, chain, p)) == p
    decreases |chain|
  {
    if chain != [] {
      LowerUndoesLift(toChild, fromChild, chain[0], chain[1..], fromChild(chain[0], self, p));
    }
  }
}
