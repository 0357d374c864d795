/**
 * The 2-by-2 rule: no 2-by-2 block may be all BLACK, so a block with three
 * BLACK cells and one undecided cell forces that cell to be an island cell.
 */
module Corner {
  import opened Grid
  import opened Board

  /** The four cells of the block whose top-left is (i, j). */
  function Quad(i: int, j: int): seq<Cell>
  {
    [(i, j), (i, j + 1), (i + 1, j), (i + 1, j + 1)]
  }

  /** The number of cells of s that read BLACK. */
  ghost function BlackCount(p: Puzzle, s: seq<Cell>): nat
    reads p.board
    requires p.Valid() && forall c :: c in s ==> InGrid(p.size, c)
    decreases |s|
  {
    if |s| == 0 then 0
    else BlackCount(p, s[..|s| - 1]) + (if p.TypeAt(s[|s| - 1]) == BLACK then 1 else 0)
  }

  /**
   * The block at (i, j) lies in the grid, c is one of its cells, c is
   * WHITE and the other three read BLACK.
   */
  ghost predicate CornerForces(p: Puzzle, i: int, j: int, c: Cell)
    reads p.board
    requires p.Valid()
  {
    0 <= i <= p.size - 2 && 0 <= j <= p.size - 2 && c in Quad(i, j) &&
    p.TypeAt(c) == WHITE &&
    forall d :: d in Quad(i, j) && d != c ==> p.TypeAt(d) == BLACK
  }

  function Bit(b: bool): nat
  {
    if b then 1 else 0
  }

  /** The count over a block is the sum over its four cells. */
  lemma QuadBlackCount(p: Puzzle, i: int, j: int)
    requires p.Valid() && 0 <= i <= p.size - 2 && 0 <= j <= p.size - 2
    ensures BlackCount(p, Quad(i, j)) ==
      Bit(p.TypeAt((i, j)) == BLACK) + Bit(p.TypeAt((i, j + 1)) == BLACK) +
      Bit(p.TypeAt((i + 1, j)) == BLACK) + Bit(p.TypeAt((i + 1, j + 1)) == BLACK)
  {
    var q := Quad(i, j);
    var s1, s2, s3 := [q[0]], [q[0], q[1]], [q[0], q[1], q[2]];
    assert s1[..0] == [] && s2[..1] == s1 && s3[..2] == s2 && q[..3] == s3;
    assert BlackCount(p, s1) == Bit(p.TypeAt(q[0]) == BLACK);
    assert BlackCount(p, s2) == BlackCount(p, s1) + Bit(p.TypeAt(q[1]) == BLACK);
    assert BlackCount(p, s3) == BlackCount(p, s2) + Bit(p.TypeAt(q[2]) == BLACK);
    assert BlackCount(p, q) == BlackCount(p, s3) + Bit(p.TypeAt(q[3]) == BLACK);
  }

  /**
   * When c is a WHITE cell of a block, the block has three BLACK cells
   * exactly when c is forced.
   */
  lemma QuadCount(p: Puzzle, i: int, j: int, c: Cell)
    requires p.Valid() && 0 <= i <= p.size - 2 && 0 <= j <= p.size - 2
    requires c in Quad(i, j) && p.TypeAt(c) == WHITE
    ensures BlackCount(p, Quad(i, j)) == 3 <==> CornerForces(p, i, j, c)
  {
    QuadBlackCount(p, i, j);
  }

  /** A block forces at most one cell. */
  lemma ForcedUnique(p: Puzzle, i: int, j: int, c: Cell, d: Cell)
    requires p.Valid() && CornerForces(p, i, j, c) && CornerForces(p, i, j, d)
    ensures c == d
  {
  }

  /** s[k] is the WHITE cell (wi, wj), and no later cell of s is WHITE. */
  ghost predicate WhiteAt(p: Puzzle, s: seq<Cell>, k: int, wi: int, wj: int)
    reads p.board
    requires p.Valid() && forall c :: c in s ==> InGrid(p.size, c)
  {
    0 <= k < |s| && s[k] == (wi, wj) && p.TypeAt(s[k]) == WHITE &&
    forall m :: k < m < |s| ==> p.TypeAt(s[m]) != WHITE
  }

  /**
   * (wi, wj) is the last WHITE cell of s, and wi is -1 exactly when s has
   * no WHITE cell.
   */
  ghost predicate LastWhite(p: Puzzle, s: seq<Cell>, wi: int, wj: int)
    reads p.board
    requires p.Valid() && forall c :: c in s ==> InGrid(p.size, c)
  {
    (wi != -1 <==> exists c :: c in s && p.TypeAt(c) == WHITE) &&
    (wi != -1 ==> (wi, wj) in s && exists k :: WhiteAt(p, s, k, wi, wj))
  }

  /**
   * One window of the scan: the number of BLACK cells among the valid cells
   * of the 2-by-2 block at (i, j), and the last WHITE one (-1, -1 if none).
   */
  method ScanWindow(p: Puzzle, i: int, j: int) returns (count: nat, wi: int, wj: int)
    requires p.Valid() && 0 <= i <= p.size - 2 && 0 <= j <= p.size - 2
    ensures count == BlackCount(p, Quad(i, j))
    ensures LastWhite(p, Quad(i, j), wi, wj)
  {
    var window := LocalWindow(p.size, i, j, 2);
    QuadWindow(p.size, i, j);
    wi, wj, count := -1, -1, 0;
    for r := 0 to |window|
      invariant count == BlackCount(p, window[..r])
      invariant LastWhite(p, window[..r], wi, wj)
    {
      count, wi, wj := ScanCell(p, window, r, count, wi, wj);
    }
    assert window[..|window|] == window;
  }

  /** Looks at one more cell of the window: counts it if BLACK, remembers it if WHITE. */
  method ScanCell(p: Puzzle, s: seq<Cell>, r: int, count: nat, wi: int, wj: int) returns (count': nat, wi': int, wj': int)
    requires p.Valid() && (forall c :: c in s ==> InGrid(p.size, c)) && 0 <= r < |s|
    requires count == BlackCount(p, s[..r]) && LastWhite(p, s[..r], wi, wj)
    ensures count' == BlackCount(p, s[..r + 1]) && LastWhite(p, s[..r + 1], wi', wj')
  {
    assert s[r] in s;
    var (ni, nj) := s[r];
    PrefixNext(p, s, r);
    count', wi', wj' := count, wi, wj;
    ghost var t := s[..r + 1];
    if p.TypeOf(ni, nj) == BLACK {
      count' := count + 1;
    } else if p.TypeOf(ni, nj) == WHITE {
      wi', wj' := ni, nj;
      assert WhiteAt(p, t, r, wi', wj');
    }
    if wi' != -1 && p.TypeOf(ni, nj) != WHITE {
      ghost var k :| WhiteAt(p, s[..r], k, wi, wj);
      assert WhiteAt(p, t, k, wi', wj');
    }
  }

  /** Scanning one more cell of s: the count and the cells seen grow by that cell. */
  lemma PrefixNext(p: Puzzle, s: seq<Cell>, r: int)
    requires p.Valid() && (forall c :: c in s ==> InGrid(p.size, c)) && 0 <= r < |s|
    ensures forall c :: c in s[..r + 1] <==> c in s[..r] || c == s[r]
    ensures BlackCount(p, s[..r + 1]) == BlackCount(p, s[..r]) + Bit(p.TypeAt(s[r]) == BLACK)
  {
    assert s[..r + 1] == s[..r] + [s[r]];
    assert s[..r + 1][..r] == s[..r];
  }

  /**
   * The window fires (three BLACK cells and a WHITE one) exactly when its
   * block forces a cell, and then the WHITE cell found is the one forced.
   */
  lemma WindowFires(p: Puzzle, i: int, j: int, count: nat, wi: int, wj: int)
    requires p.Valid() && 0 <= i <= p.size - 2 && 0 <= j <= p.size - 2
    requires count == BlackCount(p, Quad(i, j))
    requires LastWhite(p, Quad(i, j), wi, wj)
    ensures (count == 3 && wi != -1) <==> exists c :: CornerForces(p, i, j, c)
    ensures count == 3 && wi != -1 ==> CornerForces(p, i, j, (wi, wj))
  {
    if wi != -1 {
      QuadCount(p, i, j, (wi, wj));
    }
    if exists c :: CornerForces(p, i, j, c) {
      var c :| CornerForces(p, i, j, c);
      QuadCount(p, i, j, c);
    }
  }

  /** u stores DOT into the cell some block of the grid forces. */
  ghost predicate CornerFires(p: Puzzle, u: Update)
    reads p.board
    requires p.Valid()
  {
    u.value == DOT && exists i, j :: CornerForces(p, i, j, u.Target())
  }

  /** The updates are the forced cells of the first t blocks of the scan, as DOT. */
  ghost predicate CornersSoFar(p: Puzzle, all: seq<Cell>, t: int, updates: seq<Update>)
    reads p.board
    requires p.Valid() && 0 <= t <= |all|
  {
    forall u :: u in updates <==> u.value == DOT && exists m :: 0 <= m < t && CornerForces(p, all[m].0, all[m].1, u.Target())
  }

  lemma CornerStep(p: Puzzle, all: seq<Cell>, t: int, before: seq<Update>, after: seq<Update>, fired: bool, c: Cell)
    requires p.Valid() && 0 <= t < |all| && CornersSoFar(p, all, t, before)
    requires fired ==> CornerForces(p, all[t].0, all[t].1, c) && after == before + [Update(c.0, c.1, DOT)]
    requires !fired ==> (forall d :: !CornerForces(p, all[t].0, all[t].1, d)) && after == before
    ensures CornersSoFar(p, all, t + 1, after)
  {
    forall u
      ensures u in after <==> u.value == DOT && exists m :: 0 <= m < t + 1 && CornerForces(p, all[m].0, all[m].1, u.Target())
    {
      if CornerForces(p, all[t].0, all[t].1, u.Target()) && fired {
        ForcedUnique(p, all[t].0, all[t].1, c, u.Target());
      }
    }
  }

  /**
   * Emits DOT at c exactly when some block inside the grid has c as its
   * only WHITE cell and its three other cells BLACK.
   */
  method CoverCorner(p: Puzzle) returns (updates: seq<Update>)
    requires p.Valid()
    ensures forall u :: u in updates <==> CornerFires(p, u)
  {
    updates := [];
    var all := BoardCells(p.size, 1);
    for t := 0 to |all|
      invariant CornersSoFar(p, all, t, updates)
    {
      var (i, j) := all[t];
      var count, wi, wj := ScanWindow(p, i, j);
      WindowFires(p, i, j, count, wi, wj);
      ghost var before := updates;
      if count == 3 && wi != -1 {
        updates := updates + [Update(wi, wj, DOT)];
      }
      CornerStep(p, all, t, before, updates, count == 3 && wi != -1, (wi, wj));
    }
    AllCorners(p, all, updates);
  }

  /** After the whole scan, every block of the grid has been looked at. */
  lemma AllCorners(p: Puzzle, all: seq<Cell>, updates: seq<Update>)
    requires p.Valid() && all == BoardCells(p.size, 1) && CornersSoFar(p, all, |all|, updates)
    ensures forall u :: u in updates <==> CornerFires(p, u)
  {
    forall u: Update | CornerFires(p, u)
      ensures exists m :: 0 <= m < |all| && CornerForces(p, all[m].0, all[m].1, u.Target())
    {
      var i, j :| CornerForces(p, i, j, u.Target());
      ScannedBlock(p, all, i, j, u.Target());
    }
  }

  /** The scan visits every block that forces a cell. */
  lemma ScannedBlock(p: Puzzle, all: seq<Cell>, i: int, j: int, c: Cell)
    requires p.Valid() && all == BoardCells(p.size, 1) && CornerForces(p, i, j, c)
    ensures exists m :: 0 <= m < |all| && CornerForces(p, all[m].0, all[m].1, c)
  {
    assert (i, j) in all;
    var m :| 0 <= m < |all| && all[m] == (i, j);
  }
}
