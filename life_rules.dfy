/**
 Conway's rule on an unbounded grid, stated on sets of live cells. This is the
 reference the imperative step engine is proved against: a cell is alive in the
 next generation iff it has exactly 3 live neighbours, or it is alive and has
 exactly 2.
 */
module LifeRules {
  import opened Vec2

  /** Number of elements of `s` that lie in `alive`, counting repeats. */
  function CountIn(s: seq<Vec2>, alive: set<Vec2>): (k: nat)
    ensures k <= |s|
  {
    if s == [] then 0 else (if s[0] in alive then 1 else 0) + CountIn(s[1..], alive)
  }

  /** The cells listed in `s`, as a set. */
  function Elements(s: seq<Vec2>): set<Vec2>
  {
    set c | c in s
  }

  /** A repetition-free sequence has as many elements as its set. */
  lemma {:induction false} DistinctCardinality(s: seq<Vec2>)
    requires Distinct(s)
    ensures |Elements(s)| == |s|
  {
    if s != [] {
      assert Distinct(s[1..]) by {
        forall i, j | 0 <= i < j < |s[1..]| ensures s[1..][i] != s[1..][j] {
          assert s[i + 1] != s[j + 1];
        }
      }
      DistinctCardinality(s[1..]);
      assert Elements(s) == {s[0]} + Elements(s[1..]);
    }
  }

  /** The cells of `s` that lie in `alive`, as a set. */
  function Among(s: seq<Vec2>, alive: set<Vec2>): set<Vec2>
  {
    set x | x in s && x in alive
  }

  /** In a repetition-free sequence, counting the live elements is taking the size of their set. */
  lemma {:induction false} CountInIsCardinality(s: seq<Vec2>, alive: set<Vec2>)
    requires Distinct(s)
    ensures CountIn(s, alive) == |Among(s, alive)|
  {
    if s != [] {
      assert Distinct(s[1..]) by {
        forall i, j | 0 <= i < j < |s[1..]| ensures s[1..][i] != s[1..][j] {
          assert s[i + 1] != s[j + 1];
        }
      }
      CountInIsCardinality(s[1..], alive);
      if s[0] in alive {
        assert Among(s, alive) == {s[0]} + Among(s[1..], alive);
      } else {
        assert Among(s, alive) == Among(s[1..], alive);
      }
    }
  }

  /** Number of live cells adjacent to `c`. */
  function NeighborCount(alive: set<Vec2>, c: Vec2): nat
  {
    |set n | n in alive && Adjacent(c, n)|
  }

  /** The live-neighbour count is the number of live cells in the list of neighbours. */
  lemma NeighborCountAsCountIn(alive: set<Vec2>, c: Vec2)
    ensures NeighborCount(alive, c) == CountIn(Neighbors(c), alive)
  {
    CountInIsCardinality(Neighbors(c), alive);
    assert (set n | n in alive && Adjacent(c, n)) == Among(Neighbors(c), alive);
  }

  function Indicator(c: Vec2, alive: set<Vec2>): nat
  {
    if c in alive then 1 else 0
  }

  /** The live-neighbour count as the sum over the eight neighbours, one by one. */
  lemma NeighborCountUnfolded(alive: set<Vec2>, c: Vec2)
    ensures var n := Neighbors(c);
      NeighborCount(alive, c) ==
        Indicator(n[0], alive) + Indicator(n[1], alive) + Indicator(n[2], alive) + Indicator(n[3], alive) +
        Indicator(n[4], alive) + Indicator(n[5], alive) + Indicator(n[6], alive) + Indicator(n[7], alive)
  {
    NeighborCountAsCountIn(alive, c);
    var n := Neighbors(c);
    assert CountIn(n[7..], alive) == Indicator(n[7], alive) + CountIn(n[8..], alive);
    assert CountIn(n[6..], alive) == Indicator(n[6], alive) + CountIn(n[7..], alive);
    assert CountIn(n[5..], alive) == Indicator(n[5], alive) + CountIn(n[6..], alive);
    assert CountIn(n[4..], alive) == Indicator(n[4], alive) + CountIn(n[5..], alive);
    assert CountIn(n[3..], alive) == Indicator(n[3], alive) + CountIn(n[4..], alive);
    assert CountIn(n[2..], alive) == Indicator(n[2], alive) + CountIn(n[3..], alive);
    assert CountIn(n[1..], alive) == Indicator(n[1], alive) + CountIn(n[2..], alive);
    assert CountIn(n, alive) == Indicator(n[0], alive) + CountIn(n[1..], alive);
  }

  /** Conway's rule for one cell, given whether it is alive and its live-neighbour count. */
  predicate Rule(isAlive: bool, count: nat)
  {
    count == 3 || (isAlive && count == 2)
  }

  /** The live cells together with every cell adjacent to one of them. */
  function Candidates(alive: set<Vec2>): set<Vec2>
  {
    alive + (set c, n | c in alive && n in Neighbors(c) :: n)
  }

  /** The next generation of `alive`. */
  function NextGen(alive: set<Vec2>): set<Vec2>
  {
    set x | x in Candidates(alive) && Rule(x in alive, NeighborCount(alive, x))
  }

  /** A cell with a live neighbour is adjacent to some live cell. */
  lemma NeighborCountPositive(alive: set<Vec2>, x: Vec2)
    requires NeighborCount(alive, x) > 0
    ensures exists c :: c in alive && x in Neighbors(c)
  {
    var live := set n | n in alive && Adjacent(x, n);
    var c :| c in live;
    AdjacentSymmetric(x, c);
  }

  /** The full characterisation: membership in the next generation is exactly Conway's rule. */
  lemma NextGenRule(alive: set<Vec2>, x: Vec2)
    ensures x in NextGen(alive) <==> Rule(x in alive, NeighborCount(alive, x))
  {
    if x !in Candidates(alive) && NeighborCount(alive, x) > 0 {
      NeighborCountPositive(alive, x);
    }
  }

  /** Locality: every cell of the next generation is live now or adjacent to a live cell. */
  lemma Locality(alive: set<Vec2>, x: Vec2)
    requires x in NextGen(alive)
    ensures x in alive || exists c :: c in alive && x in Neighbors(c)
  {
  }

  lemma EmptyStaysEmpty()
    ensures NextGen({}) == {}
  {
  }

  lemma Underpopulation(alive: set<Vec2>, x: Vec2)
    requires x in alive && NeighborCount(alive, x) < 2
    ensures x !in NextGen(alive)
  {
    NextGenRule(alive, x);
  }

  lemma Survival(alive: set<Vec2>, x: Vec2)
    requires x in alive && 2 <= NeighborCount(alive, x) <= 3
    ensures x in NextGen(alive)
  {
    NextGenRule(alive, x);
  }

  lemma Overcrowding(alive: set<Vec2>, x: Vec2)
    requires x in alive && NeighborCount(alive, x) > 3
    ensures x !in NextGen(alive)
  {
    NextGenRule(alive, x);
  }

  lemma Birth(alive: set<Vec2>, x: Vec2)
    requires x !in alive && NeighborCount(alive, x) == 3
    ensures x in NextGen(alive)
  {
    NextGenRule(alive, x);
  }

  lemma StaysDead(alive: set<Vec2>, x: Vec2)
    requires x !in alive && NeighborCount(alive, x) != 3
    ensures x !in NextGen(alive)
  {
    NextGenRule(alive, x);
  }

  /** A cell with one live neighbour dies: the origin next to (1,0). */
  lemma LonelyCellDies()
    ensures Zero !in NextGen({Zero, UnitI})
  {
    NeighborCountUnfolded({Zero, UnitI}, Zero);
    NextGenRule({Zero, UnitI}, Zero);
  }

  /** A cell with two live neighbours survives: the origin next to (1,0) and (0,1). */
  lemma HappyCellSurvives()
    ensures Zero in NextGen({Zero, UnitI, UnitJ})
  {
    NeighborCountUnfolded({Zero, UnitI, UnitJ}, Zero);
    NextGenRule({Zero, UnitI, UnitJ}, Zero);
  }

  /** A cell surrounded by all eight of its neighbours dies. */
  lemma OvercrowdedCellDies()
    ensures Zero !in NextGen({Zero} + set n | n in Neighbors(Zero))
  {
    var alive := {Zero} + set n | n in Neighbors(Zero);
    NeighborCountUnfolded(alive, Zero);
    NextGenRule(alive, Zero);
  }

  /** The origin is born from (1,0), (0,1) and (1,1). */
  lemma BirthFromThree()
    ensures Zero in NextGen({UnitI, UnitJ, One})
  {
    NeighborCountUnfolded({UnitI, UnitJ, One}, Zero);
    NextGenRule({UnitI, UnitJ, One}, Zero);
  }
}
