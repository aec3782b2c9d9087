/** The integer grid cell shared by the three cell structs of the project
    (`Vector2D` in vector2d.hpp, `Coord` in coord.hpp and the older
    `Vector2D` in vector.hpp), and the hash combination their hash functors
    all use. */
module Grid {

  /** A grid cell: a plain pair of integers. C++ `int` is modelled unbounded. */
  datatype Cell = Cell(x: int, y: int)

  /** `std::size_t`, taken to be 64 bits wide. */
  type SizeT = bv64

  /** The per-`int` hash `std::hash<int>`; its values are left to the
      standard library, so every hash below takes it as a parameter. */
  type IntHash = int -> SizeT

  /** `hx ^ (hy << 1)`: the combination of the two per-coordinate hashes,
      written out identically in include/vector2d.hpp:43,
      include/coord.hpp:19 and include/vector.hpp:19.
      Bit 0 of the result is bit 0 of `hx`; from the result and `hx` one
      gets back every bit of `hy` except its top bit, which the shift drops. */
  function HashCombine(hx: SizeT, hy: SizeT): (r: SizeT)
    ensures r & 1 == hx & 1
    ensures (r ^ hx) >> 1 == hy & 0x7FFF_FFFF_FFFF_FFFF
  {
    hx ^ (hy << 1)
  }

  /** The three laws of an equivalence relation on cells. */
  ghost predicate IsEquivalence(eq: (Cell, Cell) -> bool)
  {
    && (forall a :: eq(a, a))
    && (forall a, b :: eq(a, b) == eq(b, a))
    && (forall a, b, c :: eq(a, b) && eq(b, c) ==> eq(a, c))
  }

  /** What a hash functor must satisfy to key an unordered container
      together with the equality `eq`: equal keys hash equally. */
  ghost predicate HashAgreesWith(hash: Cell -> SizeT, eq: (Cell, Cell) -> bool)
  {
    forall a, b :: eq(a, b) ==> hash(a) == hash(b)
  }
}
