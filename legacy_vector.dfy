/** The older cell type of include/vector.hpp: a struct `Vector2D` with
    only a componentwise `==`, and its hash functor `Vector2DHash`. */
module LegacyVector2D {
  import opened Grid

  /** `operator==`: componentwise comparison, which is exactly equality of
      cells since a cell holds nothing but its two coordinates. */
  function Equal(a: Cell, b: Cell): (r: bool)
    ensures r <==> a == b
  {
    a.x == b.x && a.y == b.y
  }

  /** `Vector2DHash`: `h(x) ^ (h(y) << 1)`. */
  function Hash(h: IntHash, c: Cell): (r: SizeT)
  {
    HashCombine(h(c.x), h(c.y))
  }

  /** `==` is reflexive, symmetric and transitive. */
  lemma EqualIsEquivalence()
    ensures IsEquivalence(Equal)
  {
  }

  /** Equal vectors hash equally under every per-`int` hash. */
  lemma HashConsistent(h: IntHash)
    ensures HashAgreesWith(c => Hash(h, c), Equal)
  {
  }
}
