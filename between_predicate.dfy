/** `BetweenPredicate`: an inclusive range test on a `long`, with bounds
    fixed at construction. A reader given no predicate (`null`) accepts
    every value. */
module Predicates {
  import opened Wrappers
  import opened JavaInt

  /** The two bounds, set by the constructor and never changed. */
  datatype Between = Between(startTs: int64, endTs: int64)

  /** `apply(value)`: `value >= startTs && value <= endTs`. */
  predicate Apply(p: Between, v: int64) {
    v >= p.startTs && v <= p.endTs
  }

  /** A predicate slot that may be `null`: `null` lets everything through. */
  predicate Accepts(p: Option<Between>, v: int64) {
    p.None? || Apply(p.value, v)
  }

  /** Both bounds are included exactly when the range is not reversed, and a
      reversed range accepts nothing. */
  lemma {:induction false} BoundsIncluded(p: Between)
    ensures Apply(p, p.startTs) <==> p.startTs <= p.endTs
    ensures Apply(p, p.endTs) <==> p.startTs <= p.endTs
    ensures p.startTs > p.endTs ==> forall v: int64 {:trigger Apply(p, v)} :: !Apply(p, v)
  {
  }

  /** The range a query builds after putting its bounds in order: the same
      values pass whichever order the bounds came in. */
  function Ordered(a: int64, b: int64): (p: Between)
    ensures p.startTs <= p.endTs
    ensures forall v: int64 {:trigger Apply(p, v)} :: Apply(p, v) <==> (a <= v <= b || b <= v <= a)
  {
    if a > b then Between(b, a) else Between(a, b)
  }

  /** The order of the bounds given to `Ordered` does not matter. */
  lemma OrderedSymmetric(a: int64, b: int64)
    ensures Ordered(a, b) == Ordered(b, a)
  {
  }

  /** `new BetweenPredicate(Long.MAX_VALUE, Long.MAX_VALUE)` accepts only
      `Long.MAX_VALUE`, so every real timestamp is refused. */
  lemma MaxMaxRejects(v: int64)
    requires v < LONG_MAX
    ensures !Apply(Between(LONG_MAX, LONG_MAX), v)
  {
  }
}
