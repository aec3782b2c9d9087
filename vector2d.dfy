/** The cell type of include/vector2d.hpp: struct `Vector2D` with its three
    constructors, componentwise `==`, `+` and `-`, `manhattanDistance`,
    `isNeighbor`, and the hash functor `Vector2DHash`. */
module Vector2D {
  import opened Grid

  /** `std::abs` on `int`. */
  function Abs(n: int): (m: nat)
  {
    if n < 0 then -n else n
  }

  /** The default constructor. */
  function Default(): (r: Cell)
  {
    Cell(0, 0)
  }

  /** The constructor from a `std::vector<int>`: it reads the first two
      elements without a bounds check, so callers must supply at least two. */
  function FromInts(coords: seq<int>): (r: Cell)
    requires |coords| >= 2
    ensures r.x == coords[0] && r.y == coords[1]
  {
    Cell(coords[0], coords[1])
  }

  /** `operator==`: componentwise comparison, which is exactly equality of
      cells since a cell holds nothing but its two coordinates. */
  function Equal(a: Cell, b: Cell): (r: bool)
    ensures r <==> a == b
  {
    a.x == b.x && a.y == b.y
  }

  /** `operator+`. */
  function Add(a: Cell, b: Cell): (r: Cell)
  {
    Cell(a.x + b.x, a.y + b.y)
  }

  /** `operator-`. */
  function Sub(a: Cell, b: Cell): (r: Cell)
  {
    Cell(a.x - b.x, a.y - b.y)
  }

  /** `manhattanDistance`: never negative, and zero exactly for equal cells. */
  function ManhattanDistance(a: Cell, b: Cell): (d: int)
    ensures d >= 0
    ensures d == 0 <==> a == b
  {
    Abs(a.x - b.x) + Abs(a.y - b.y)
  }

  /** The four unit steps of the grid: east, west, north, south. */
  const UnitSteps: set<Cell> := {Cell(1, 0), Cell(-1, 0), Cell(0, 1), Cell(0, -1)}

  /** `isNeighbor`: Manhattan distance exactly one, which is the same as
      `b - a` being one of the four unit steps. */
  function IsNeighbor(a: Cell, b: Cell): (r: bool)
    ensures r <==> Sub(b, a) in UnitSteps
  {
    ManhattanDistance(a, b) == 1
  }

  /** `Vector2DHash`: `h(x) ^ (h(y) << 1)`. */
  function Hash(h: IntHash, c: Cell): (r: SizeT)
  {
    HashCombine(h(c.x), h(c.y))
  }

  // ---------------------------------------------------------------------
  // Constructors

  /** The default cell is the origin and the neutral element of `+`. */
  lemma DefaultIsOrigin(c: Cell)
    ensures Default().x == 0 && Default().y == 0
    ensures Add(c, Default()) == c && Add(Default(), c) == c
    ensures ManhattanDistance(Default(), c) == Abs(c.x) + Abs(c.y)
  {
  }

  /** The sequence constructor and the two-int constructor agree, and the
      sequence constructor ignores everything after the second element. */
  lemma FromIntsAgreesWithPair(coords: seq<int>, a: int, b: int)
    requires |coords| >= 2
    ensures FromInts([a, b]) == Cell(a, b)
    ensures FromInts(coords) == FromInts(coords[..2])
  {
  }

  // ---------------------------------------------------------------------
  // Equality and hashing

  /** `==` is reflexive, symmetric and transitive. */
  lemma EqualIsEquivalence()
    ensures IsEquivalence(Equal)
  {
  }

  /** Equal cells hash equally under every per-`int` hash: `Vector2DHash`
      and `==` can key an unordered container together. */
  lemma HashConsistent(h: IntHash)
    ensures HashAgreesWith(c => Hash(h, c), Equal)
  {
  }

  /** Two y-hashes that differ only in the top bit give the same cell hash:
      the left shift throws that bit away. */
  lemma TopBitOfYHashLost(h: IntHash, x: int, y1: int, y2: int)
    requires h(y1) ^ h(y2) == 0x8000_0000_0000_0000
    ensures Hash(h, Cell(x, y1)) == Hash(h, Cell(x, y2))
  {
  }

  /** The hash is not injective on cells even when `h` is: for any `h` that
      maps 0, 1 and 2 to themselves (the identity hash of common standard
      libraries does), the distinct cells (2,0) and (0,1) collide. */
  lemma DistinctCellsCollide(h: IntHash)
    requires h(0) == 0 && h(1) == 1 && h(2) == 2
    ensures Cell(2, 0) != Cell(0, 1)
    ensures Hash(h, Cell(2, 0)) == Hash(h, Cell(0, 1))
  {
  }

  // ---------------------------------------------------------------------
  // Addition and subtraction

  /** `(a + b) - b == a` and `(a - b) + b == a`. */
  lemma AddSubRoundTrip(a: Cell, b: Cell)
    ensures Sub(Add(a, b), b) == a
    ensures Add(Sub(a, b), b) == a
  {
  }

  /** `+` is commutative and associative, and `a - a` is the origin. */
  lemma AddLaws(a: Cell, b: Cell, c: Cell)
    ensures Add(a, b) == Add(b, a)
    ensures Add(Add(a, b), c) == Add(a, Add(b, c))
    ensures Sub(a, a) == Default()
  {
  }

  // ---------------------------------------------------------------------
  // Manhattan distance

  /** The distance is symmetric and the distance of `b - a` from the origin. */
  lemma DistanceSymmetric(a: Cell, b: Cell)
    ensures ManhattanDistance(a, b) == ManhattanDistance(b, a)
    ensures ManhattanDistance(a, b) == ManhattanDistance(Default(), Sub(b, a))
  {
  }

  /** Translating both cells by the same vector keeps their distance, and
      so keeps whether they are neighbours. */
  lemma DistanceTranslationInvariant(a: Cell, b: Cell, t: Cell)
    ensures ManhattanDistance(Add(a, t), Add(b, t)) == ManhattanDistance(a, b)
    ensures IsNeighbor(Add(a, t), Add(b, t)) == IsNeighbor(a, b)
  {
  }

  /** The triangle inequality. */
  lemma TriangleInequality(a: Cell, b: Cell, c: Cell)
    ensures ManhattanDistance(a, c) <= ManhattanDistance(a, b) + ManhattanDistance(b, c)
  {
  }

  // ---------------------------------------------------------------------
  // Neighbours

  /** No cell is its own neighbour, and adjacency is symmetric. */
  lemma NeighborIrreflexiveSymmetric(a: Cell, b: Cell)
    ensures !IsNeighbor(a, a)
    ensures IsNeighbor(a, b) == IsNeighbor(b, a)
  {
  }

  /** A walk: a non-empty sequence of cells in which each one is a neighbour
      of the one before it (a track path, read step by step). */
  ghost predicate IsWalk(w: seq<Cell>)
  {
    |w| >= 1 && forall i :: 0 <= i < |w| - 1 ==> IsNeighbor(w[i], w[i + 1])
  }

  /** A walk from `a` to `b`. */
  ghost predicate IsWalkBetween(w: seq<Cell>, a: Cell, b: Cell)
  {
    IsWalk(w) && w[0] == a && w[|w| - 1] == b
  }

  /** A walk makes at least as many steps as the Manhattan distance between
      its ends: each step changes the distance to the end by at most one. */
  lemma {:induction false} WalkNoShorterThanDistance(w: seq<Cell>)
    requires IsWalk(w)
    ensures ManhattanDistance(w[0], w[|w| - 1]) <= |w| - 1
    decreases |w|
  {
    if |w| > 1 {
      var rest := w[1..];
      assert IsWalk(rest) by {
        forall i | 0 <= i < |rest| - 1
          ensures IsNeighbor(rest[i], rest[i + 1])
        {
          assert rest[i] == w[i + 1] && rest[i + 1] == w[i + 2];
        }
      }
      WalkNoShorterThanDistance(rest);
      assert IsNeighbor(w[0], w[1]);
      TriangleInequality(w[0], w[1], w[|w| - 1]);
    }
  }

  /** Some walk between any two cells makes exactly as many steps as their
      Manhattan distance: together with WalkNoShorterThanDistance, the
      Manhattan distance is the length of a shortest neighbour walk. */
  lemma {:induction false} ShortestWalkExists(a: Cell, b: Cell)
    ensures exists w :: IsWalkBetween(w, a, b) && |w| == ManhattanDistance(a, b) + 1
    decreases ManhattanDistance(a, b)
  {
    if a == b {
      assert IsWalkBetween([a], a, b);
    } else {
      var next :=
        if a.x < b.x then Cell(a.x + 1, a.y)
        else if a.x > b.x then Cell(a.x - 1, a.y)
        else if a.y < b.y then Cell(a.x, a.y + 1)
        else Cell(a.x, a.y - 1);
      assert IsNeighbor(a, next);
      assert ManhattanDistance(next, b) == ManhattanDistance(a, b) - 1;
      ShortestWalkExists(next, b);
      var rest :| IsWalkBetween(rest, next, b) && |rest| == ManhattanDistance(next, b) + 1;
      var w := [a] + rest;
      assert IsWalk(w) by {
        forall i | 0 <= i < |w| - 1
          ensures IsNeighbor(w[i], w[i + 1])
        {
          if i > 0 {
            assert w[i] == rest[i - 1] && w[i + 1] == rest[i];
          }
        }
      }
      assert IsWalkBetween(w, a, b);
    }
  }
}
