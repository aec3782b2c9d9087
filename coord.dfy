/** The cell type of include/coord.hpp: struct `Coord`, which has only a
    componentwise `==`, and its hash functor `CoordHash`. */
module Coord {
  import opened Grid

  /** `operator==`: componentwise comparison, which is exactly equality of
      cells since a cell holds nothing but its two coordinates. */
  function Equal(a: Cell, b: Cell): (r: bool)
    ensures r <==> a == b
  {
    a.x == b.x && a.y == b.y
  }

  /** `CoordHash`: `h(x) ^ (h(y) << 1)`. */
  function Hash(h: IntHash, c: Cell): (r: SizeT)
  {
    HashCombine(h(c.x), h(c.y))
  }

  /** `==` is reflexive, symmetric and transitive. */
  lemma EqualIsEquivalence()
    ensures IsEquivalence(Equal)
  {
  }

  /** Equal coords hash equally under every per-`int` hash. */
  lemma HashConsistent(h: IntHash)
    ensures HashAgreesWith(c => Hash(h, c), Equal)
  {
  }
}
