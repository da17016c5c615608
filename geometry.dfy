/** Integer rectangles with the half-open containment test of the Android
    graphics `Rect`, and the `(int)` cast of a double, which truncates
    toward zero. */
module Geometry {

  /** An axis-aligned rectangle in pixels. Equality is by value, as for
      the platform `Rect`, whose `equals` and `hashCode` compare the four
      coordinates. */
  datatype Rect = Rect(left: int, top: int, right: int, bottom: int)

  /** A rectangle with no area. */
  predicate IsEmpty(r: Rect) {
    r.left >= r.right || r.top >= r.bottom
  }

  /** `Rect.contains(x, y)`: left and top edges are inside, right and
      bottom edges are not, and an empty rectangle contains no point. */
  predicate Contains(r: Rect, x: int, y: int)
    ensures IsEmpty(r) ==> !Contains(r, x, y)
    ensures !IsEmpty(r) ==> (Contains(r, x, y) <==> r.left <= x < r.right && r.top <= y < r.bottom)
  {
    r.left < r.right && r.top < r.bottom
    && r.left <= x < r.right && r.top <= y < r.bottom
  }

  /** The right and bottom edges are outside; the top-left corner of a
      non-empty rectangle is inside. */
  lemma HalfOpenEdges(r: Rect, x: int, y: int)
    ensures !Contains(r, r.right, y) && !Contains(r, x, r.bottom)
    ensures !IsEmpty(r) <==> Contains(r, r.left, r.top)
  {
  }

  /** Two rectangles that no point can lie in at once, because one is
      empty or one lies entirely to the left of the other. */
  predicate Separated(a: Rect, b: Rect) {
    IsEmpty(a) || IsEmpty(b) || a.right <= b.left || b.right <= a.left
  }

  lemma SeparatedNoCommonPoint(a: Rect, b: Rect, x: int, y: int)
    requires Separated(a, b)
    ensures !(Contains(a, x, y) && Contains(b, x, y))
  {
  }

  /** Every two rectangles at different positions of `rs` are separated. */
  predicate PairwiseSeparated(rs: seq<Rect>) {
    forall i, j :: 0 <= i < j < |rs| ==> Separated(rs[i], rs[j])
  }

  /** Java's `(int)` cast from a double: truncation toward zero (for the
      exact real, see the notes in README on floating point). */
  function Trunc(r: real): (t: int)
    ensures r >= 0.0 ==> t >= 0 && t as real <= r < t as real + 1.0
    ensures r < 0.0 ==> t <= 0 && t as real - 1.0 < r <= t as real
  {
    if r >= 0.0 then r.Floor else -((-r).Floor)
  }

  /** Truncation keeps the order of its arguments. */
  lemma TruncMonotone(a: real, b: real)
    requires a <= b
    ensures Trunc(a) <= Trunc(b)
  {
  }

  /** Truncation leaves whole numbers alone. */
  lemma TruncOfInt(n: int)
    ensures Trunc(n as real) == n
  {
  }
}
