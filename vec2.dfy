/**
 The integer pair the life engine uses to identify cells of an unbounded grid,
 with the two operations the engine and its tests rely on: component-wise
 addition and the 8-cell Moore neighbourhood.
 */
module Vec2 {

  datatype Vec2 = Vec2(x: int, y: int)

  const Zero := Vec2(0, 0)
  const UnitI := Vec2(1, 0)
  const UnitJ := Vec2(0, 1)
  const One := Vec2(1, 1)

  function Add(a: Vec2, b: Vec2): (r: Vec2)
    ensures r.x - b.x == a.x && r.y - b.y == a.y
  {
    Vec2(a.x + b.x, a.y + b.y)
  }

  /** The origin moved by the unit offsets is the offset itself. */
  lemma OffsetsFromOrigin()
    ensures Add(Zero, UnitI) == UnitI && Add(Zero, UnitJ) == UnitJ && Add(Zero, One) == One
  {
  }

  function Abs(n: int): nat
  {
    if n < 0 then -n else n
  }

  /** Chebyshev distance exactly 1: the two cells touch by a side or a corner. */
  predicate Adjacent(a: Vec2, b: Vec2)
  {
    a != b && Abs(a.x - b.x) <= 1 && Abs(a.y - b.y) <= 1
  }

  predicate Distinct<T(==)>(s: seq<T>)
  {
    forall i, j :: 0 <= i < j < |s| ==> s[i] != s[j]
  }

  /**
   The 8 cells adjacent to `c`, each once: the 3x3 block around `c` minus its
   centre, scanned with the x offset outermost.
   */
  function Neighbors(c: Vec2): (r: seq<Vec2>)
    ensures |r| == 8
    ensures Distinct(r)
    ensures forall n :: n in r <==> Adjacent(c, n)
  {
    var (x, y) := (c.x, c.y);
    [Vec2(x - 1, y - 1), Vec2(x - 1, y), Vec2(x - 1, y + 1),
     Vec2(x, y - 1),                     Vec2(x, y + 1),
     Vec2(x + 1, y - 1), Vec2(x + 1, y), Vec2(x + 1, y + 1)]
  }

  lemma AdjacentSymmetric(a: Vec2, b: Vec2)
    ensures a in Neighbors(b) <==> b in Neighbors(a)
  {
  }
}
