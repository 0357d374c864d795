/**
 * The solver's state: the immutable clue grid `task`, the mutable cell grid
 * `board` and their common side length `size`.
 */
module Board {
  import opened Grid

  class Puzzle {
    const size: nat
    /** Clue grid: 0 means no clue, n > 0 seeds an island of exactly n cells. */
    const task: seq<seq<int>>
    /** Stored cell values, WHITE, BLACK or DOT; the solver changes them in place. */
    const board: array2<int>

    /**
     * Well-formedness the solver relies on without checking it: a square
     * grid, no negative clue, only the three cell values stored and no clue
     * cell stored as BLACK.
     */
    ghost predicate Valid()
      reads board
    {
      board.Length0 == size && board.Length1 == size &&
      |task| == size && (forall i :: 0 <= i < size ==> |task[i]| == size) &&
      (forall i, j :: 0 <= i < size && 0 <= j < size ==> task[i][j] >= 0) &&
      (forall i, j :: 0 <= i < size && 0 <= j < size ==> 0 <= board[i, j] <= 2) &&
      (forall i, j :: 0 <= i < size && 0 <= j < size && task[i][j] > 0 ==> board[i, j] != BLACK)
    }

    /** The puzzle over a clue grid and a cell grid meeting the well-formedness the solver relies on. */
    constructor (task: seq<seq<int>>, board: array2<int>)
      requires board.Length0 == |task| && board.Length1 == |task|
      requires forall i :: 0 <= i < |task| ==> |task[i]| == |task|
      requires forall i, j :: 0 <= i < |task| && 0 <= j < |task| ==> task[i][j] >= 0
      requires forall i, j :: 0 <= i < |task| && 0 <= j < |task| ==> 0 <= board[i, j] <= 2
      requires forall i, j :: 0 <= i < |task| && 0 <= j < |task| && task[i][j] > 0 ==> board[i, j] != BLACK
      ensures this.size == |task| && this.task == task && this.board == board
      ensures Valid()
    {
      this.size := |task|;
      this.task := task;
      this.board := board;
    }

    /** A clue cell reads as DOT whatever is stored there; any other cell reads its stored value. */
    function TypeOf(i: int, j: int): (t: int)
      reads board
      requires Valid() && IsValidCell(size, i, j)
      ensures t == WHITE || t == BLACK || t == DOT
      ensures task[i][j] > 0 ==> t == DOT
      ensures t == BLACK <==> board[i, j] == BLACK
      ensures t == WHITE ==> board[i, j] == WHITE && task[i][j] == 0
    {
      if task[i][j] > 0 then DOT else board[i, j]
    }

    function TypeAt(c: Cell): int
      reads board
      requires Valid() && InGrid(size, c)
    {
      TypeOf(c.0, c.1)
    }

    /** The cells still undecided; the fixpoint loop shrinks this set on every pass. */
    ghost function WhiteCells(): (w: set<Cell>)
      reads board
      requires Valid()
      ensures forall c :: c in w <==> InGrid(size, c) && TypeAt(c) == WHITE
    {
      set i, j | 0 <= i < size && 0 <= j < size && TypeOf(i, j) == WHITE :: (i, j)
    }
  }
}
