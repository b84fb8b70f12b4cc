/**
 The life step engine: a cell map keyed by the string form of a cell, and
 `SimulateLife`, which builds two maps from the same input, reads every
 neighbour count from the first and applies deaths and births to the second.
 */
module GameOfLife {
  import opened Vec2
  import opened CellKey
  import opened LifeRules

  lemma ElementsSnoc(s: seq<Vec2>, i: nat)
    requires i < |s|
    ensures Elements(s[..i + 1]) == Elements(s[..i]) + {s[i]}
  {
    assert s[..i + 1] == s[..i] + [s[i]];
  }

  /**
   The keys of the cells of `s`, each at the place of its first occurrence: the
   order in which a map built by setting the cells of `s` one by one holds them.
   */
  function FirstKeys(s: seq<Vec2>): (r: seq<string>)
    ensures Distinct(r) && |r| <= |s|
  {
    if s == [] then []
    else
      var p := FirstKeys(s[..|s| - 1]);
      var k := Key(s[|s| - 1]);
      if k in p then p else p + [k]
  }

  lemma FirstKeysSnoc(s: seq<Vec2>, i: nat)
    requires i < |s|
    ensures FirstKeys(s[..i + 1]) ==
      if Key(s[i]) in FirstKeys(s[..i]) then FirstKeys(s[..i]) else FirstKeys(s[..i]) + [Key(s[i])]
  {
    assert s[..i + 1][..i] == s[..i];
  }

  /** Every entry of `m` is stored under its own key. */
  ghost predicate KeyConsistent(m: map<string, Vec2>)
  {
    forall k :: k in m ==> Key(m[k]) == k
  }

  /** In a key-consistent map, a cell's key is present exactly when the cell is stored. */
  lemma HasKeyIffStored(m: map<string, Vec2>, c: Vec2)
    requires KeyConsistent(m)
    ensures Key(c) in m <==> c in m.Values
  {
    if c in m.Values {
      var k :| k in m && m[k] == c;
    }
    if Key(c) in m {
      KeyInjective(m[Key(c)], c);
    }
  }

  /** Storing a cell under its key adds exactly that cell, and nothing else. */
  lemma StoreValues(m: map<string, Vec2>, c: Vec2)
    requires KeyConsistent(m)
    ensures KeyConsistent(m[Key(c) := c])
    ensures m[Key(c) := c].Values == m.Values + {c}
  {
    var m' := m[Key(c) := c];
    assert m'[Key(c)] == c;
    forall k | k in m' ensures Key(m'[k]) == k {
      if k != Key(c) {
        assert m'[k] == m[k];
      }
    }
    forall v | v in m.Values ensures v in m'.Values {
      var k :| k in m && m[k] == v;
      if k == Key(c) {
        KeyInjective(v, c);
      } else {
        assert m'[k] == v;
      }
    }
    forall v | v in m'.Values ensures v in m.Values + {c} {
      var k :| k in m' && m'[k] == v;
      if k != Key(c) {
        assert m[k] == v;
      }
    }
  }

  /** Deleting a cell's key removes exactly that cell, and nothing else. */
  lemma DeleteValues(m: map<string, Vec2>, c: Vec2)
    requires KeyConsistent(m)
    ensures KeyConsistent(m - {Key(c)})
    ensures (m - {Key(c)}).Values == m.Values - {c}
  {
    var m' := m - {Key(c)};
    forall k | k in m' ensures Key(m'[k]) == k {
      assert m'[k] == m[k];
    }
    forall v | v in m.Values && v != c ensures v in m'.Values {
      var k :| k in m && m[k] == v;
      if k == Key(c) {
        KeyInjective(v, c);
      }
      assert k in m' && m'[k] == v;
    }
    forall v | v in m'.Values ensures v in m.Values && v != c {
      var k :| k in m' && m'[k] == v;
      assert k in m && m[k] == v;
      assert k != Key(c);
    }
  }

  /** `s` without `k`, in the same order. */
  function RemoveKey(s: seq<string>, k: string): (r: seq<string>)
    ensures forall x :: x in r <==> x in s && x != k
    ensures Distinct(s) ==> Distinct(r)
  {
    if s == [] then []
    else
      var rest := RemoveKey(s[1..], k);
      if s[0] == k then rest
      else
        var r := [s[0]] + rest;
        assert Distinct(s) ==> Distinct(r) by {
          if Distinct(s) {
            assert Distinct(s[1..]) by {
              forall i, j | 0 <= i < j < |s[1..]| ensures s[1..][i] != s[1..][j] {
                assert s[i + 1] != s[j + 1];
              }
            }
            forall i, j | 0 <= i < j < |r| ensures r[i] != r[j] {
              if i == 0 {
                assert r[j] in rest;
              } else {
                assert r[i] == rest[i - 1] && r[j] == rest[j - 1];
              }
            }
          }
        }
        r
  }

  /** The values of `m` listed in the order of its keys `ks`: each stored cell, once. */
  lemma ListedValues(m: map<string, Vec2>, ks: seq<string>, r: seq<Vec2>)
    requires KeyConsistent(m) && Distinct(ks)
    requires forall k :: k in ks <==> k in m
    requires |r| == |ks| && forall i :: 0 <= i < |ks| ==> r[i] == m[ks[i]]
    ensures Distinct(r)
    ensures forall c :: c in r <==> c in m.Values
  {
    forall c | c in m.Values ensures c in r {
      var k :| k in m && m[k] == c;
      var i :| 0 <= i < |ks| && ks[i] == k;
      assert r[i] == c;
    }
    forall i, j | 0 <= i < j < |r| ensures r[i] != r[j] {
      assert Key(r[i]) == ks[i] && Key(r[j]) == ks[j];
    }
  }

  /**
   A map from the key `${x},${y}` of a cell to the cell. `order` lists the
   map's keys in insertion order, which is the order in which the cells are
   listed back.
   */
  class CellMap {
    var cells: map<string, Vec2>
    var order: seq<string>

    ghost predicate Valid()
      reads this
    {
      && KeyConsistent(cells)
      && Distinct(order)
      && (forall k :: k in order <==> k in cells)
    }

    /** The set of live cells the map represents. */
    ghost function Alive(): set<Vec2>
      reads this
    {
      cells.Values
    }

    /** A map holding each listed cell once; a repeated cell keeps its first position. */
    constructor FromAliveCells(aliveCells: seq<Vec2>)
      ensures Valid()
      ensures Alive() == Elements(aliveCells)
      ensures order == FirstKeys(aliveCells)
    {
      cells := map[];
      order := [];
      new;
      var i := 0;
      while i < |aliveCells|
        invariant 0 <= i <= |aliveCells|
        invariant Valid()
        invariant Alive() == Elements(aliveCells[..i])
        invariant order == FirstKeys(aliveCells[..i])
      {
        SetAlive(aliveCells[i]);
        ElementsSnoc(aliveCells, i);
        FirstKeysSnoc(aliveCells, i);
        i := i + 1;
      }
      assert aliveCells[..i] == aliveCells;
    }

    /** Stores `cell`; a cell already present keeps its position in the order. */
    method SetAlive(cell: Vec2)
      requires Valid()
      modifies this
      ensures Valid()
      ensures Alive() == old(Alive()) + {cell}
      ensures order == if Key(cell) in old(cells) then old(order) else old(order) + [Key(cell)]
    {
      var k := Key(cell);
      StoreValues(cells, cell);
      if k !in cells {
        order := order + [k];
      }
      cells := cells[k := cell];
    }

    /** Removes `cell`, if present. */
    method SetDead(cell: Vec2)
      requires Valid()
      modifies this
      ensures Valid()
      ensures Alive() == old(Alive()) - {cell}
      ensures order == RemoveKey(old(order), Key(cell))
    {
      var k := Key(cell);
      DeleteValues(cells, cell);
      cells := cells - {k};
      order := RemoveKey(order, k);
    }

    /** The stored cells, each once, in insertion order. */
    function GetAliveCells(): (r: seq<Vec2>)
      reads this
      requires Valid()
      ensures Distinct(r)
      ensures forall c :: c in r <==> c in Alive()
      ensures |r| == |order| && forall i :: 0 <= i < |r| ==> Key(r[i]) == order[i]
    {
      var m, ks := cells, order;
      var r := seq(|ks|, i requires 0 <= i < |ks| => m[ks[i]]);
      ListedValues(m, ks, r);
      r
    }

    function IsCellAlive(cell: Vec2): (alive: bool)
      reads this
      requires Valid()
      ensures alive <==> cell in Alive()
    {
      HasKeyIffStored(cells, cell);
      Key(cell) in cells
    }

    /** The cells of `s` that are alive, in the order of `s`. */
    function AliveAmong(s: seq<Vec2>): (r: seq<Vec2>)
      reads this
      requires Valid()
      ensures forall n :: n in r <==> n in s && n in Alive()
      ensures Distinct(s) ==> Distinct(r)
    {
      if s == [] then []
      else
        var rest := AliveAmong(s[1..]);
        DistinctTail(s);
        if IsCellAlive(s[0]) then
          DistinctCons(s[0], rest);
          [s[0]] + rest
        else
          rest
    }

    /** The live neighbours of `cell`; their number is its live-neighbour count. */
    function GetAliveNeighbors(cell: Vec2): (r: seq<Vec2>)
      reads this
      requires Valid()
      ensures |r| == NeighborCount(Alive(), cell)
      ensures forall n :: n in r <==> Adjacent(cell, n) && n in Alive()
    {
      var r := AliveAmong(Neighbors(cell));
      DistinctCardinality(r);
      assert Elements(r) == set n | n in Alive() && Adjacent(cell, n);
      r
    }
  }

  lemma DistinctTail(s: seq<Vec2>)
    requires s != []
    ensures Distinct(s) ==> Distinct(s[1..])
  {
    if Distinct(s) {
      forall i, j | 0 <= i < j < |s[1..]| ensures s[1..][i] != s[1..][j] {
        assert s[i + 1] != s[j + 1];
      }
    }
  }

  lemma DistinctCons(x: Vec2, rest: seq<Vec2>)
    ensures Distinct(rest) && x !in rest ==> Distinct([x] + rest)
  {
    if Distinct(rest) && x !in rest {
      var r := [x] + rest;
      forall i, j | 0 <= i < j < |r| ensures r[i] != r[j] {
        if i == 0 {
          assert r[j] in rest;
        } else {
          assert r[i] == rest[i - 1] && r[j] == rest[j - 1];
        }
      }
    }
  }

  /** Cells among `done` that the step marks for death: fewer than 2 or more than 3 live neighbours. */
  ghost function Killed(alive: set<Vec2>, done: seq<Vec2>): set<Vec2>
  {
    set c | c in done && !(2 <= NeighborCount(alive, c) <= 3)
  }

  /** Cells among `s` with exactly 3 live neighbours: the ones the step marks alive. */
  ghost function BornAmong(alive: set<Vec2>, s: seq<Vec2>): set<Vec2>
  {
    set n | n in s && NeighborCount(alive, n) == 3
  }

  /** Neighbours of cells among `done` that the step marks alive. */
  ghost function Born(alive: set<Vec2>, done: seq<Vec2>): set<Vec2>
  {
    set c, n | c in done && n in Neighbors(c) && NeighborCount(alive, n) == 3 :: n
  }

  /** The next map's cells once the cells of `done` have been visited. */
  ghost function Partial(alive: set<Vec2>, done: seq<Vec2>): set<Vec2>
  {
    (alive - Killed(alive, done)) + Born(alive, done)
  }

  /** The kill applied for `cell`, if any, before its neighbours are visited. */
  ghost function AfterKill(alive: set<Vec2>, done: seq<Vec2>, cell: Vec2): set<Vec2>
  {
    if 2 <= NeighborCount(alive, cell) <= 3 then Partial(alive, done)
    else Partial(alive, done) - {cell}
  }

  lemma NoMembersEmpty(s: seq<Vec2>)
    ensures (forall x :: x !in s) ==> s == []
  {
    if s != [] {
      assert s[0] in s;
    }
  }

  lemma UnionAssociative(a: set<Vec2>, b: set<Vec2>, c: set<Vec2>)
    ensures (a + b) + c == a + (b + c)
  {
  }

  lemma BornAmongSnoc(alive: set<Vec2>, s: seq<Vec2>, j: nat)
    requires j < |s|
    ensures BornAmong(alive, s[..j + 1]) ==
      BornAmong(alive, s[..j]) + (if NeighborCount(alive, s[j]) == 3 then {s[j]} else {})
  {
    assert s[..j + 1] == s[..j] + [s[j]];
  }

  /**
   Visiting one more cell: the kill of that cell, then the births around it,
   take the partial result for `done` to the partial result for `done + [cell]`.
   */
  lemma PartialStep(alive: set<Vec2>, s: seq<Vec2>, i: nat)
    requires i < |s|
    ensures AfterKill(alive, s[..i], s[i]) + BornAmong(alive, Neighbors(s[i])) == Partial(alive, s[..i + 1])
  {
    var done, cell := s[..i], s[i];
    var done' := s[..i + 1];
    assert done' == done + [cell];
    assert Killed(alive, done') ==
      Killed(alive, done) + (if 2 <= NeighborCount(alive, cell) <= 3 then {} else {cell});
    assert Born(alive, done') == Born(alive, done) + BornAmong(alive, Neighbors(cell));
    assert cell in Born(alive, done) ==> NeighborCount(alive, cell) == 3;
  }

  /** Once every live cell has been visited, the deltas give exactly the next generation. */
  lemma DeltasGiveNextGen(aliveCells: seq<Vec2>)
    ensures Partial(Elements(aliveCells), aliveCells) == NextGen(Elements(aliveCells))
  {
    var alive := Elements(aliveCells);
    var result := Partial(alive, aliveCells);
    forall x ensures x in result <==> x in NextGen(alive) {
      NextGenRule(alive, x);
      if x !in alive && NeighborCount(alive, x) == 3 {
        NeighborCountPositive(alive, x);
        var c :| c in alive && x in Neighbors(c);
        assert x in Born(alive, aliveCells);
      }
    }
  }

  /** One neighbour of the inner pass: set alive when it has exactly 3 live neighbours. */
  method VisitNeighbor(previousCellMap: CellMap, nextCellMap: CellMap, neighbor: Vec2)
    requires previousCellMap != nextCellMap
    requires previousCellMap.Valid() && nextCellMap.Valid()
    modifies nextCellMap
    ensures nextCellMap.Valid()
    ensures nextCellMap.Alive() == old(nextCellMap.Alive()) +
      (if NeighborCount(previousCellMap.Alive(), neighbor) == 3 then {neighbor} else {})
  {
    if |previousCellMap.GetAliveNeighbors(neighbor)| == 3 {
      nextCellMap.SetAlive(neighbor);
    }
  }

  /**
   The inner pass of a step: every neighbour of `cell` that has exactly 3 live
   neighbours in `previousCellMap` is set alive in `nextCellMap`.
   */
  method SetBornNeighbors(previousCellMap: CellMap, nextCellMap: CellMap, cell: Vec2)
    requires previousCellMap != nextCellMap
    requires previousCellMap.Valid() && nextCellMap.Valid()
    modifies nextCellMap
    ensures nextCellMap.Valid()
    ensures nextCellMap.Alive() == old(nextCellMap.Alive()) + BornAmong(previousCellMap.Alive(), Neighbors(cell))
  {
    ghost var alive := previousCellMap.Alive();
    var neighbors := Neighbors(cell);
    var j := 0;
    while j < |neighbors|
      invariant 0 <= j <= |neighbors|
      invariant previousCellMap.Valid() && previousCellMap.Alive() == alive
      invariant nextCellMap.Valid()
      invariant nextCellMap.Alive() == old(nextCellMap.Alive()) + BornAmong(alive, neighbors[..j])
    {
      VisitNeighbor(previousCellMap, nextCellMap, neighbors[j]);
      BornAmongSnoc(alive, neighbors, j);
      UnionAssociative(old(nextCellMap.Alive()), BornAmong(alive, neighbors[..j]),
        if NeighborCount(alive, neighbors[j]) == 3 then {neighbors[j]} else {});
      j := j + 1;
    }
    assert neighbors[..j] == neighbors;
  }

  /**
   The visit of the `i`-th live cell: it dies in `nextCellMap` unless it has 2
   or 3 live neighbours in `previousCellMap`, then its neighbours with exactly
   3 are set alive.
   */
  method VisitCell(previousCellMap: CellMap, nextCellMap: CellMap, aliveCells: seq<Vec2>, i: nat)
    requires previousCellMap != nextCellMap
    requires i < |aliveCells|
    requires previousCellMap.Valid() && previousCellMap.Alive() == Elements(aliveCells)
    requires nextCellMap.Valid() && nextCellMap.Alive() == Partial(Elements(aliveCells), aliveCells[..i])
    modifies nextCellMap
    ensures nextCellMap.Valid()
    ensures nextCellMap.Alive() == Partial(Elements(aliveCells), aliveCells[..i + 1])
  {
    ghost var alive := Elements(aliveCells);
    var cell := aliveCells[i];
    var aliveNeighbors := previousCellMap.GetAliveNeighbors(cell);
    if |aliveNeighbors| < 2 || |aliveNeighbors| > 3 {
      nextCellMap.SetDead(cell);
    }
    assert nextCellMap.Alive() == AfterKill(alive, aliveCells[..i], cell);
    SetBornNeighbors(previousCellMap, nextCellMap, cell);
    PartialStep(alive, aliveCells, i);
  }

  /**
   One generation of Conway's rule. Neighbour counts are read only from
   `previousCellMap`, so the deaths and births applied to `nextCellMap` do not
   affect counts taken later in the same call.
   */
  method SimulateLife(aliveCells: seq<Vec2>) returns (next: seq<Vec2>)
    ensures Distinct(next)
    ensures aliveCells == [] ==> next == []
    ensures forall x :: x in next <==> x in NextGen(Elements(aliveCells))
    ensures forall x :: x in next <==> Rule(x in aliveCells, NeighborCount(Elements(aliveCells), x))
  {
    var previousCellMap := new CellMap.FromAliveCells(aliveCells);
    var nextCellMap := new CellMap.FromAliveCells(aliveCells);
    ghost var alive := Elements(aliveCells);
    var i := 0;
    while i < |aliveCells|
      invariant 0 <= i <= |aliveCells|
      invariant previousCellMap.Valid() && previousCellMap.Alive() == alive
      invariant nextCellMap.Valid()
      invariant nextCellMap.Alive() == Partial(alive, aliveCells[..i])
      modifies nextCellMap
    {
      VisitCell(previousCellMap, nextCellMap, aliveCells, i);
      i := i + 1;
    }
    assert aliveCells[..i] == aliveCells;
    DeltasGiveNextGen(aliveCells);
    next := nextCellMap.GetAliveCells();
    forall x ensures x in next <==> Rule(x in aliveCells, NeighborCount(alive, x)) {
      NextGenRule(alive, x);
    }
    if aliveCells == [] {
      EmptyStaysEmpty();
      NoMembersEmpty(next);
    }
  }
}
