/**
 * The separation rule: a cell adjacent to two different islands would join
 * them, so it must be BLACK. The rule looks at pairs of island cells at
 * Manhattan distance 2 and blackens the cells between them.
 */
module BetweenIslands {
  import opened Grid
  import opened Board
  import opened Regions

  function Abs(x: int): nat
  {
    if x < 0 then -x else x
  }

  /** Manhattan distance. */
  function Distance(a: Cell, b: Cell): nat
  {
    Abs(a.0 - b.0) + Abs(a.1 - b.1)
  }

  /**
   * Distance is symmetric, and two cells are at distance 2 exactly when
   * they are two apart in one row or one column, or diagonal neighbours.
   */
  lemma DistanceTwo(a: Cell, b: Cell)
    ensures Distance(a, b) == Distance(b, a)
    ensures Distance(a, b) == 2 <==>
      (a.0 == b.0 && (a.1 == b.1 + 2 || b.1 == a.1 + 2)) ||
      (a.1 == b.1 && (a.0 == b.0 + 2 || b.0 == a.0 + 2)) ||
      ((a.0 == b.0 + 1 || b.0 == a.0 + 1) && (a.1 == b.1 + 1 || b.1 == a.1 + 1))
  {
  }

  /**
   * The cells between two cells at distance 2: the midpoint when they share
   * a row or a column (the sum of the differing coordinates is then even, so
   * the halving is exact), otherwise the two other corners of their block.
   * These are exactly the cells adjacent to both.
   */
  function Between(a: Cell, b: Cell): (r: seq<Cell>)
    requires Distance(a, b) == 2
    ensures forall c :: c in r <==> Adjacent(a, c) && Adjacent(c, b)
  {
    if a.0 == b.0 then [(a.0, (a.1 + b.1) / 2)]
    else if a.1 == b.1 then [((a.0 + b.0) / 2, a.1)]
    else [(a.0, b.1), (b.0, a.1)]
  }

  /** The cells between two cells of the grid lie in the grid. */
  lemma BetweenInGrid(size: int, a: Cell, b: Cell)
    requires Distance(a, b) == 2 && InGrid(size, a) && InGrid(size, b)
    ensures forall c :: c in Between(a, b) ==> InGrid(size, c)
  {
  }

  /** u blackens a non-BLACK cell between c1 and c2, the two being at distance 2. */
  ghost predicate PairHits(p: Puzzle, c1: Cell, c2: Cell, u: Update)
    reads p.board
    requires p.Valid()
  {
    u.value == BLACK && Distance(c1, c2) == 2 && u.Target() in Between(c1, c2) &&
    InGrid(p.size, u.Target()) && p.TypeAt(u.Target()) != BLACK
  }

  /** u is a hit of some cell of cells1 and some cell of cells2. */
  ghost predicate IslandsHit(p: Puzzle, cells1: seq<Cell>, cells2: seq<Cell>, u: Update)
    reads p.board
    requires p.Valid()
  {
    exists c1, c2 :: c1 in cells1 && c2 in cells2 && PairHits(p, c1, c2, u)
  }

  /** u is a hit of the cells of two islands listed in that order. */
  ghost predicate BetweenHit(p: Puzzle, islands: seq<Component>, u: Update)
    reads p.board
    requires p.Valid()
  {
    exists x, y :: 0 <= x < y < |islands| && IslandsHit(p, islands[x].cells, islands[y].cells, u)
  }

  /** The innermost step: the non-BLACK cells between two cells at distance 2, as BLACK updates. */
  method CellPair(p: Puzzle, c1: Cell, c2: Cell) returns (updates: seq<Update>)
    requires p.Valid() && InGrid(p.size, c1) && InGrid(p.size, c2)
    ensures forall u :: u in updates <==> PairHits(p, c1, c2, u)
  {
    updates := [];
    if Distance(c1, c2) == 2 {
      var blacks := Between(c1, c2);
      BetweenInGrid(p.size, c1, c2);
      for r := 0 to |blacks|
        invariant forall u :: u in updates <==> u.value == BLACK && u.Target() in blacks[..r] && p.TypeAt(u.Target()) != BLACK
      {
        assert blacks[..r + 1] == blacks[..r] + [blacks[r]];
        var (i, j) := blacks[r];
        if p.TypeOf(i, j) != BLACK {
          updates := updates + [Update(i, j, BLACK)];
        }
      }
      assert blacks[..|blacks|] == blacks;
    }
  }

  /** Every cell of one island against every cell of another. */
  method IslandPair(p: Puzzle, cells1: seq<Cell>, cells2: seq<Cell>) returns (updates: seq<Update>)
    requires p.Valid() && AllInGrid(p.size, cells1) && AllInGrid(p.size, cells2)
    ensures forall u :: u in updates <==> IslandsHit(p, cells1, cells2, u)
  {
    updates := [];
    for a := 0 to |cells1|
      invariant forall u :: u in updates <==> IslandsHit(p, cells1[..a], cells2, u)
    {
      ghost var before := updates;
      for b := 0 to |cells2|
        invariant forall u :: u in updates <==> u in before || IslandsHit(p, [cells1[a]], cells2[..b], u)
      {
        var more := CellPair(p, cells1[a], cells2[b]);
        updates := updates + more;
        HitStep(p, cells1[a], cells2, b);
      }
      assert cells2[..|cells2|] == cells2;
      RowStep(p, cells1, cells2, a);
    }
    assert cells1[..|cells1|] == cells1;
  }

  lemma HitStep(p: Puzzle, c1: Cell, cells2: seq<Cell>, b: int)
    requires p.Valid() && 0 <= b < |cells2|
    ensures forall u :: IslandsHit(p, [c1], cells2[..b + 1], u) <==>
      IslandsHit(p, [c1], cells2[..b], u) || PairHits(p, c1, cells2[b], u)
  {
    assert cells2[..b + 1] == cells2[..b] + [cells2[b]];
  }

  lemma RowStep(p: Puzzle, cells1: seq<Cell>, cells2: seq<Cell>, a: int)
    requires p.Valid() && 0 <= a < |cells1|
    ensures forall u :: IslandsHit(p, cells1[..a + 1], cells2, u) <==>
      IslandsHit(p, cells1[..a], cells2, u) || IslandsHit(p, [cells1[a]], cells2, u)
  {
    assert cells1[..a + 1] == cells1[..a] + [cells1[a]];
  }

  /** The hits of the pairs (x, y) with x < y, where x < x0, or x == x0 and y < y0. */
  ghost predicate PairsSoFar(p: Puzzle, islands: seq<Component>, x0: int, y0: int, u: Update)
    reads p.board
    requires p.Valid()
  {
    exists x, y :: 0 <= x < y < |islands| && (x < x0 || (x == x0 && y < y0)) &&
      IslandsHit(p, islands[x].cells, islands[y].cells, u)
  }

  lemma PairStep(p: Puzzle, islands: seq<Component>, x: int, y: int)
    requires p.Valid() && 0 <= x < y < |islands|
    ensures forall u :: PairsSoFar(p, islands, x, y + 1, u) <==>
      PairsSoFar(p, islands, x, y, u) || IslandsHit(p, islands[x].cells, islands[y].cells, u)
  {
  }

  lemma RowDone(p: Puzzle, islands: seq<Component>, x: int)
    requires p.Valid() && 0 <= x < |islands|
    ensures forall u :: PairsSoFar(p, islands, x, |islands|, u) <==> PairsSoFar(p, islands, x + 1, x + 2, u)
  {
  }

  lemma AllPairs(p: Puzzle, islands: seq<Component>)
    requires p.Valid()
    ensures forall u :: PairsSoFar(p, islands, |islands|, |islands| + 1, u) <==> BetweenHit(p, islands, u)
  {
  }

  /**
   * For every pair of distinct islands, cells at distance 2 have the cells
   * between them blackened, unless they already read BLACK.
   */
  method CoverBetweenIslands(p: Puzzle, islands: seq<Component>) returns (updates: seq<Update>)
    requires p.Valid() && forall k :: 0 <= k < |islands| ==> AllInGrid(p.size, islands[k].cells)
    ensures forall u :: u in updates <==> BetweenHit(p, islands, u)
  {
    updates := [];
    for x := 0 to |islands|
      invariant forall u :: u in updates <==> PairsSoFar(p, islands, x, x + 1, u)
    {
      updates := PairsFrom(p, islands, x, updates);
      RowDone(p, islands, x);
    }
    AllPairs(p, islands);
  }

  /** The pairs (x, y) for every later island y, appended to the updates so far. */
  method PairsFrom(p: Puzzle, islands: seq<Component>, x: int, before: seq<Update>) returns (updates: seq<Update>)
    requires p.Valid() && forall k :: 0 <= k < |islands| ==> AllInGrid(p.size, islands[k].cells)
    requires 0 <= x < |islands| && forall u :: u in before <==> PairsSoFar(p, islands, x, x + 1, u)
    ensures forall u :: u in updates <==> PairsSoFar(p, islands, x, |islands|, u)
  {
    updates := before;
    for y := x + 1 to |islands|
      invariant forall u :: u in updates <==> PairsSoFar(p, islands, x, y, u)
    {
      var more := IslandPair(p, islands[x].cells, islands[y].cells);
      updates := updates + more;
      PairStep(p, islands, x, y);
    }
  }

  /** A DOT neighbour of an island cell belongs to the island. */
  lemma IslandAbsorbs(p: Puzzle, isl: Component, c: Cell, b: Cell)
    requires p.Valid() && IsIsland(p, isl) && c in isl.cells
    requires InGrid(p.size, b) && Adjacent(c, b) && p.TypeAt(b) == DOT
    ensures b in isl.cells
  {
    assert b in Neighbors(p.size, c.0, c.1);
    assert p.TypeAt(isl.root) == DOT;
  }

  /**
   * On the islands of an extraction every cell the rule blackens is still
   * undecided: were it DOT, being next to both islands it would belong to
   * both, and islands are disjoint.
   */
  lemma BetweenTargetsWhite(p: Puzzle, streams: seq<Component>, islands: seq<Component>, u: Update)
    requires p.Valid() && IsExtraction(p, streams, islands) && BetweenHit(p, islands, u)
    ensures InGrid(p.size, u.Target()) && p.TypeAt(u.Target()) == WHITE
  {
    var x, y :| 0 <= x < y < |islands| && IslandsHit(p, islands[x].cells, islands[y].cells, u);
    var c1, c2 :| c1 in islands[x].cells && c2 in islands[y].cells && PairHits(p, c1, c2, u);
    var b := u.Target();
    if p.TypeAt(b) == DOT {
      IslandAbsorbs(p, islands[x], c1, b);
      IslandAbsorbs(p, islands[y], c2, b);
      assert false;
    }
  }
}
