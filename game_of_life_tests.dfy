/**
 The scenarios of the engine's test suite, stated on the result of
 `SimulateLife` itself: each method runs one step on the suite's input and
 promises what the suite expects of the output.
 */
module GameOfLifeTests {
  import opened Vec2
  import opened LifeRules
  import opened GameOfLife

  /** No cells alive: the result is empty. */
  method RemainsLifeless() returns (life: seq<Vec2>)
    ensures life == []
  {
    life := SimulateLife([]);
  }

  /** A cell with one neighbour is not in the result. */
  method LonelyCellDiesStep() returns (life: seq<Vec2>)
    ensures Zero !in life
  {
    life := SimulateLife([Zero, UnitI]);
    assert Elements([Zero, UnitI]) == {Zero, UnitI};
    LonelyCellDies();
  }

  /** A cell with two neighbours is in the result. */
  method HappyCellSurvivesStep() returns (life: seq<Vec2>)
    ensures Zero in life
  {
    life := SimulateLife([Zero, UnitI, UnitJ]);
    assert Elements([Zero, UnitI, UnitJ]) == {Zero, UnitI, UnitJ};
    HappyCellSurvives();
  }

  /** A cell listed together with all eight of its neighbours is not in the result. */
  method OvercrowdedCellDiesStep() returns (life: seq<Vec2>)
    ensures Zero !in life
  {
    var cells := [Zero] + Neighbors(Zero);
    life := SimulateLife(cells);
    assert Elements(cells) == {Zero} + set n | n in Neighbors(Zero);
    OvercrowdedCellDies();
  }

  /** A position next to three live cells, given as offsets from it, is in the result. */
  method BirthFromThreeStep() returns (life: seq<Vec2>)
    ensures Zero in life
  {
    var cells := [Add(Zero, UnitI), Add(Zero, UnitJ), Add(Zero, One)];
    OffsetsFromOrigin();
    assert cells == [UnitI, UnitJ, One];
    life := SimulateLife(cells);
    BirthFromThree();
    assert Elements(cells) == {UnitI, UnitJ, One};
  }
}
