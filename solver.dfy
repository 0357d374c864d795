/**
 * The solver's entry: one extraction of the starting board, the walls
 * around every clue-1 island, then the fixpoint loop.
 */
module Solver {
  import opened Grid
  import opened Board
  import opened Regions
  import opened Exits
  import opened Fixpoint

  /** No neighbour of c holds a clue. */
  predicate Isolated(p: Puzzle, c: Cell)
    requires |p.task| == p.size && forall r :: 0 <= r < p.size ==> |p.task[r]| == p.size
  {
    forall n :: n in Neighbors(p.size, c.0, c.1) ==> p.task[n.0][n.1] == 0
  }

  /** Every island with clue 1 among the first n has an in-grid root, and no clue touches it. */
  predicate RootsIsolated(p: Puzzle, islands: seq<Component>, n: int)
    requires |p.task| == p.size && forall r :: 0 <= r < p.size ==> |p.task[r]| == p.size
    requires 0 <= n <= |islands|
  {
    forall k :: 0 <= k < n ==>
      InGrid(p.size, islands[k].root) && (islands[k].RequiredSize() == 1 ==> Isolated(p, islands[k].root))
  }

  /** c is a neighbour of the root of one of the first n islands, that island's clue being 1. */
  ghost predicate SeedTarget(size: nat, islands: seq<Component>, n: int, c: Cell)
    requires 0 <= n <= |islands|
  {
    exists k :: 0 <= k < n && islands[k].RequiredSize() == 1 &&
      c in Neighbors(size, islands[k].root.0, islands[k].root.1)
  }

  /** The grid values m after seeding: BLACK on every seed target, everything else as it was. */
  ghost function Seeded(m: map<Cell, int>, size: nat, islands: seq<Component>): map<Cell, int>
  {
    map c | c in m :: if SeedTarget(size, islands, |islands|, c) then BLACK else m[c]
  }

  /** Stores BLACK into every neighbour of root; nothing else changes. */
  method SeedIsland(p: Puzzle, root: Cell)
    requires p.Valid() && InGrid(p.size, root) && Isolated(p, root)
    modifies p.board
    ensures p.Valid()
    ensures forall a, b :: 0 <= a < p.size && 0 <= b < p.size ==>
      p.board[a, b] == if (a, b) in Neighbors(p.size, root.0, root.1) then BLACK else old(p.board[a, b])
  {
    var ns := Neighbors(p.size, root.0, root.1);
    for r := 0 to |ns|
      invariant p.Valid()
      invariant forall a, b :: 0 <= a < p.size && 0 <= b < p.size ==>
        p.board[a, b] == if (a, b) in ns[..r] then BLACK else old(p.board[a, b])
    {
      assert ns[..r + 1] == ns[..r] + [ns[r]];
      var (ni, nj) := ns[r];
      Write(p, Update(ni, nj, BLACK));
    }
    assert ns[..|ns|] == ns;
  }

  /**
   * The seeding pass: for each island of clue 1, in list order, every
   * neighbour of its clue cell becomes BLACK. A cell ends BLACK exactly
   * when it is such a neighbour; every other cell keeps its value.
   */
  method Seed(p: Puzzle, islands: seq<Component>)
    requires p.Valid() && RootsIsolated(p, islands, |islands|)
    modifies p.board
    ensures p.Valid()
    ensures forall a, b :: 0 <= a < p.size && 0 <= b < p.size ==>
      p.board[a, b] == if SeedTarget(p.size, islands, |islands|, (a, b)) then BLACK else old(p.board[a, b])
    ensures Snapshot(p) == Seeded(old(Snapshot(p)), p.size, islands)
  {
    ghost var before := Snapshot(p);
    for k := 0 to |islands|
      invariant p.Valid()
      invariant forall a, b :: 0 <= a < p.size && 0 <= b < p.size ==>
        p.board[a, b] == if SeedTarget(p.size, islands, k, (a, b)) then BLACK else old(p.board[a, b])
    {
      var island := islands[k];
      if island.RequiredSize() == 1 {
        SeedIsland(p, island.root);
      }
      forall a, b | 0 <= a < p.size && 0 <= b < p.size
        ensures SeedTarget(p.size, islands, k + 1, (a, b)) <==>
          SeedTarget(p.size, islands, k, (a, b)) || (island.RequiredSize() == 1 && (a, b) in Neighbors(p.size, island.root.0, island.root.1))
      {
        if SeedTarget(p.size, islands, k + 1, (a, b)) && !SeedTarget(p.size, islands, k, (a, b)) {
          var m :| 0 <= m < k + 1 && islands[m].RequiredSize() == 1 && (a, b) in Neighbors(p.size, islands[m].root.0, islands[m].root.1);
          assert m == k;
        }
      }
    }
    assert Snapshot(p) == Seeded(before, p.size, islands);
  }

  /** The islands of an extraction have in-grid roots holding their clues. */
  lemma ExtractionRoots(p: Puzzle, streams: seq<Component>, islands: seq<Component>)
    requires p.Valid() && IsExtraction(p, streams, islands)
    requires forall i, j :: 0 <= i < p.size && 0 <= j < p.size && p.task[i][j] == 1 ==> Isolated(p, (i, j))
    ensures RootsIsolated(p, islands, |islands|)
    ensures forall k :: 0 <= k < |islands| ==>
      InGrid(p.size, islands[k].root) && islands[k].RequiredSize() == p.task[islands[k].root.0][islands[k].root.1] > 0
  {
    forall k | 0 <= k < |islands|
      ensures InGrid(p.size, islands[k].root) &&
        islands[k].RequiredSize() == p.task[islands[k].root.0][islands[k].root.1] > 0
    {
      assert IsIsland(p, islands[k]);
    }
  }

  /** The cells the seeding pass turns BLACK. */
  ghost function Walls(size: nat, islands: seq<Component>): (w: set<Cell>)
    ensures forall c :: c in w <==> InGrid(size, c) && SeedTarget(size, islands, |islands|, c)
  {
    set a, b | 0 <= a < size && 0 <= b < size && SeedTarget(size, islands, |islands|, (a, b)) :: (a, b)
  }

  /** Every neighbour of the clue cell of a clue-1 island is a wall. */
  lemma WallsAroundOnes(size: nat, islands: seq<Component>)
    ensures forall k, n ::
      (0 <= k < |islands| && islands[k].RequiredSize() == 1 && n in Neighbors(size, islands[k].root.0, islands[k].root.1)) ==>
      n in Walls(size, islands)
  {
    forall k, n | 0 <= k < |islands| && islands[k].RequiredSize() == 1 && n in Neighbors(size, islands[k].root.0, islands[k].root.1)
      ensures n in Walls(size, islands)
    {
      assert SeedTarget(size, islands, |islands|, n);
    }
  }

  /** The fixpoint loop run over a board whose walls read BLACK keeps them BLACK. */
  method Settle(p: Puzzle, ghost walls: set<Cell>)
    returns (streams: seq<Component>, islands: seq<Component>, ghost boards: seq<map<Cell, int>>, ghost passes: seq<seq<Update>>)
    requires p.Valid() && forall c :: c in walls ==> InGrid(p.size, c) && p.TypeAt(c) == BLACK
    modifies p.board
    ensures p.Valid() && IsExtraction(p, streams, islands) && Quiescent(p, streams, islands)
    ensures forall c :: c in walls ==> p.TypeAt(c) == BLACK
    ensures IsTrace(p, boards, passes) && boards[0] == old(Snapshot(p)) && EndsAt(p, boards, passes)
    ensures KeepsDecided(p)
    ensures old(Converged(p)) ==> unchanged(p.board) && passes == []
  {
    streams, islands, boards, passes := ApplyStrategies(p);
  }

  /**
   * The whole run: extract the starting board's components, wall in every
   * clue-1 island, then run the fixpoint loop. The ghost trace starts from
   * the seeded board and ends at the final one, one entry per pass. The run
   * ends with an extraction of the final board on which no rule fires, and
   * every wall the seeding put up is still BLACK.
   */
  method Solve(p: Puzzle)
    returns (firstStreams: seq<Component>, initial: seq<Component>, streams: seq<Component>, islands: seq<Component>,
             ghost boards: seq<map<Cell, int>>, ghost passes: seq<seq<Update>>)
    requires p.Valid()
    requires forall i, j :: 0 <= i < p.size && 0 <= j < p.size && p.task[i][j] == 1 ==> Isolated(p, (i, j))
    modifies p.board
    ensures p.Valid() && IsExtraction(p, streams, islands) && Quiescent(p, streams, islands)
    ensures old(IsExtraction(p, firstStreams, initial))
    ensures IsTrace(p, boards, passes) && boards[0] == Seeded(old(Snapshot(p)), p.size, initial)
    ensures EndsAt(p, boards, passes)
    ensures forall c :: c in boards[0] && (boards[0][c] != WHITE || p.task[c.0][c.1] > 0) ==>
      InGrid(p.size, c) && p.board[c.0, c.1] == boards[0][c]
    ensures forall k, n ::
      (0 <= k < |initial| && initial[k].RequiredSize() == 1 && n in Neighbors(p.size, initial[k].root.0, initial[k].root.1)) ==>
      p.TypeAt(n) == BLACK
  {
    ghost var walls;
    firstStreams, initial, walls := Prepare(p);
    streams, islands, boards, passes := Settle(p, walls);
    forall c | c in boards[0] && (boards[0][c] != WHITE || p.task[c.0][c.1] > 0)
      ensures InGrid(p.size, c) && p.board[c.0, c.1] == boards[0][c]
    {
      TraceKeepsDecided(p, boards, passes, |passes|, c);
    }
  }

  /**
   * The run before the loop: extract the starting board's components and
   * wall in every clue-1 island. The walls are the seeded cells, and they
   * read BLACK.
   */
  method Prepare(p: Puzzle) returns (firstStreams: seq<Component>, initial: seq<Component>, ghost walls: set<Cell>)
    requires p.Valid()
    requires forall i, j :: 0 <= i < p.size && 0 <= j < p.size && p.task[i][j] == 1 ==> Isolated(p, (i, j))
    modifies p.board
    ensures p.Valid() && old(IsExtraction(p, firstStreams, initial))
    ensures Snapshot(p) == Seeded(old(Snapshot(p)), p.size, initial)
    ensures forall c :: c in walls ==> InGrid(p.size, c) && p.TypeAt(c) == BLACK
    ensures forall k, n ::
      (0 <= k < |initial| && initial[k].RequiredSize() == 1 && n in Neighbors(p.size, initial[k].root.0, initial[k].root.1)) ==>
      n in walls
  {
    firstStreams, initial := GetStreamsAndIslands(p);
    ExtractionRoots(p, firstStreams, initial);
    Seed(p, initial);
    walls := Walls(p.size, initial);
    SeedsBlack(p, initial, walls);
    WallsAroundOnes(p.size, initial);
  }

  /** Right after seeding, every wall reads BLACK. */
  lemma SeedsBlack(p: Puzzle, islands: seq<Component>, walls: set<Cell>)
    requires p.Valid() && walls == Walls(p.size, islands)
    requires forall a, b :: 0 <= a < p.size && 0 <= b < p.size && SeedTarget(p.size, islands, |islands|, (a, b)) ==> p.board[a, b] == BLACK
    ensures forall c :: c in walls ==> InGrid(p.size, c) && p.TypeAt(c) == BLACK
  {
  }
}
