# The-Train grid cell types, in Dafny

The-Train renders a toy railway diorama laid out on an integer grid. The
grid cell is a small value type, and the repository holds three versions of it:

- `Vector2D` in `include/vector2d.hpp`, the richest one. It has a default
  constructor, a constructor from a `std::vector<int>` and one from two ints.
  It has componentwise `==`, `+` and `-`, `manhattanDistance` and
  `isNeighbor`, plus the hash functor `Vector2DHash`.
- `Coord` in `include/coord.hpp`, with only `==` and `CoordHash`.
- An older `Vector2D` in `include/vector.hpp`, with only `==` and its
  `Vector2DHash`.

All three hold two `int`s and nothing else, so one datatype models them:
`Grid.Cell(x, y)`. Each header has its own module (`Vector2D`, `Coord`,
`LegacyVector2D`), holding its own `==` and its own hash functor. Each
module proves its own equality and hash laws.

- `std::size_t` is modelled as `bv64`.
- `std::hash<int>` is implementation-defined, so every hash takes it as a
  parameter `h: int -> bv64`.
- Each functor computes `h(x) ^ (h(y) << 1)` (`Grid.HashCombine`).

Beyond the laws the headers state directly, the model proves what
`manhattanDistance` and `isNeighbor` mean together: the Manhattan distance
between two cells is the number of steps in a shortest walk of neighbouring
cells between them (`WalkNoShorterThanDistance` and `ShortestWalkExists`).

## Model

| member | source | states |
|---|---|---|
| Grid.HashCombine | include/vector2d.hpp:43 | the expression shared by `Vector2DHash` here, `CoordHash` (include/coord.hpp:19) and the older `Vector2DHash` (include/vector.hpp:19): bit 0 of `h(x) ^ (h(y) << 1)` is bit 0 of `h(x)`; given the hash and `h(x)`, every bit of `h(y)` except its top bit can be recovered |
| Vector2D.DefaultIsOrigin | include/vector2d.hpp:9 | the default-constructed cell is (0,0): it is the neutral element of `+` on both sides, and its distance to `c` is `abs(c.x) + abs(c.y)` |
| Vector2D.FromInts | include/vector2d.hpp:10 | building from an int sequence needs at least two elements, and takes `x = coords[0]`, `y = coords[1]` |
| Vector2D.FromIntsAgreesWithPair | include/vector2d.hpp:10-11 | the sequence constructor on `[a, b]` gives the same cell as the two-int constructor on `(a, b)`; elements after the second are ignored |
| Vector2D.Equal | include/vector2d.hpp:13-16 | `a == b` holds exactly when the two cells are the same cell, i.e. both coordinates agree |
| Vector2D.EqualIsEquivalence | include/vector2d.hpp:13-16 | `==` is reflexive, symmetric and transitive |
| Vector2D.AddSubRoundTrip | include/vector2d.hpp:18-26 | `(a + b) - b == a` and `(a - b) + b == a` |
| Vector2D.AddLaws | include/vector2d.hpp:18-26 | `+` is commutative and associative, and `a - a` is the default cell |
| Vector2D.ManhattanDistance | include/vector2d.hpp:28-31 | the distance is never negative, and it is zero exactly when the cells are equal |
| Vector2D.DistanceSymmetric | include/vector2d.hpp:28-31 | `d(a, b) == d(b, a)`, and `d(a, b)` is the distance of `b - a` from the origin |
| Vector2D.DistanceTranslationInvariant | include/vector2d.hpp:18-36 | translating both cells by the same vector keeps their distance, and keeps whether they are neighbours |
| Vector2D.TriangleInequality | include/vector2d.hpp:28-31 | `d(a, c) <= d(a, b) + d(b, c)` |
| Vector2D.IsNeighbor | include/vector2d.hpp:33-36 | `a.isNeighbor(b)` holds exactly when `b - a` is one of (1,0), (-1,0), (0,1), (0,-1) |
| Vector2D.NeighborIrreflexiveSymmetric | include/vector2d.hpp:33-36 | no cell is its own neighbour, and adjacency is symmetric |
| Vector2D.WalkNoShorterThanDistance | include/vector2d.hpp:28-36 | every walk of neighbouring cells makes at least as many steps as the Manhattan distance between its ends |
| Vector2D.ShortestWalkExists | include/vector2d.hpp:28-36 | between any two cells there is a walk of neighbouring cells whose step count equals their Manhattan distance |
| Vector2D.HashConsistent | include/vector2d.hpp:39-45 | under every per-int hash, cells that are `==` get equal `Vector2DHash` values (what an unordered-set key needs) |
| Vector2D.TopBitOfYHashLost | include/vector2d.hpp:43 | two y-hashes that differ only in the top bit give the same cell hash, because the shift drops that bit |
| Vector2D.DistinctCellsCollide | include/vector2d.hpp:43 | the hash is not injective: under any per-int hash that fixes 0, 1 and 2, the distinct cells (2,0) and (0,1) collide |
| Coord.Equal | include/coord.hpp:9-12 | `a == b` holds exactly when both coordinates agree |
| Coord.EqualIsEquivalence | include/coord.hpp:9-12 | `==` is reflexive, symmetric and transitive |
| Coord.HashConsistent | include/coord.hpp:15-20 | under every per-int hash, coords that are `==` get equal `CoordHash` values |
| LegacyVector2D.Equal | include/vector.hpp:9-12 | `a == b` holds exactly when both coordinates agree |
| LegacyVector2D.EqualIsEquivalence | include/vector.hpp:9-12 | `==` is reflexive, symmetric and transitive |
| LegacyVector2D.HashConsistent | include/vector.hpp:15-20 | under every per-int hash, vectors that are `==` get equal `Vector2DHash` values |

## Left out

- 32-bit `int` overflow: C++ `int` has 32 bits, but the model's integers
  are unbounded. An overflowing `+`, `-` or `std::abs(INT_MIN)` is undefined
  behaviour in C++, and the model does not capture it.
- The concrete values of `std::hash<int>` are implementation-defined. The
  model takes them as a parameter. The width of `std::size_t` is fixed at
  64 bits.
- The aggregate initialisation of `Coord` and of the older `Vector2D` is the
  datatype constructor `Grid.Cell`, and so is the two-int constructor of
  `Vector2D`. None of them has a contract of its own.
- Mesh construction in `src/draw_scene.cpp` is left out. It is floating-point
  trigonometry that fills GPU buffers.
- Drawing in `src/draw_scene.cpp` and `src/render.cpp` is left out. These are
  calls into the OpenGL wrapper library and its matrix stack.
- `src/main.cpp` is left out: the GLFW window, the event loop, the camera key
  callbacks and the JSON file loading. That includes `checkGridSize`, a single
  comparison on a parsed JSON value.
- Nothing in the sources reads a path of cells from the layout file; only
  `size_grid` is read (src/main.cpp:83).
- Vector2D.FromInts: a `std::vector` with fewer than two elements makes
  `operator[]` read out of bounds, which is undefined behaviour in C++; the
  model requires two elements.
