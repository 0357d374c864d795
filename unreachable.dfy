/**
 * The reachability rule: an island cell can still grow by at most
 * requiredSize - size cells, through cells that are not BLACK. A WHITE cell
 * that no island cell reaches within its island's remaining budget can only
 * be BLACK.
 */
module Unreachable {
  import opened Grid
  import opened Board
  import opened Regions

  /** A walk of adjacent grid cells; every cell after the first reads other than BLACK. */
  ghost predicate IsWalk(size: nat, open: set<Cell>, w: seq<Cell>)
  {
    |w| > 0 && (forall k :: 0 <= k < |w| ==> InGrid(size, w[k])) &&
    (forall k :: 0 < k < |w| ==> Adjacent(w[k - 1], w[k]) && w[k] in open)
  }

  /**
   * dst is reached from src by a walk of at most `budget` steps; a negative
   * budget bounds nothing (the search never meets its stopping distance 0).
   */
  ghost predicate Reaches(size: nat, open: set<Cell>, src: Cell, dst: Cell, budget: int)
  {
    exists w :: IsWalk(size, open, w) && w[0] == src && w[|w| - 1] == dst && (budget < 0 || |w| - 1 <= budget)
  }

  /** The cells of the grid that do not read BLACK: the cells a walk may enter. */
  ghost function OpenCells(p: Puzzle): (r: set<Cell>)
    reads p.board
    requires p.Valid()
    ensures forall c :: c in r <==> InGrid(p.size, c) && p.TypeAt(c) != BLACK
  {
    set a, b | 0 <= a < p.size && 0 <= b < p.size && p.TypeAt((a, b)) != BLACK :: (a, b)
  }

  /** Every cell of the grid reaches itself. */
  lemma ReachesSelf(size: nat, open: set<Cell>, src: Cell, budget: int)
    requires InGrid(size, src)
    ensures Reaches(size, open, src, src, budget)
  {
    assert IsWalk(size, open, [src]);
  }

  /** A walk can be extended by one step to a non-BLACK neighbour, at the cost of one unit of budget. */
  lemma ReachesStep(size: nat, open: set<Cell>, src: Cell, x: Cell, y: Cell, budget: int)
    requires Reaches(size, open, src, x, budget)
    requires InGrid(size, y) && Adjacent(x, y) && y in open
    ensures Reaches(size, open, src, y, if budget < 0 then budget else budget + 1)
  {
    var w :| IsWalk(size, open, w) && w[0] == src && w[|w| - 1] == x && (budget < 0 || |w| - 1 <= budget);
    var w' := w + [y];
    assert IsWalk(size, open, w') by {
      forall k | 0 < k < |w'|
        ensures Adjacent(w'[k - 1], w'[k]) && w'[k] in open
      {
        if k < |w| {
          assert w'[k - 1] == w[k - 1] && w'[k] == w[k];
        }
      }
    }
    assert w'[0] == src && w'[|w'| - 1] == y;
  }

  /** A larger non-negative budget, or any negative one in place of another, reaches no less. */
  lemma ReachesMono(size: nat, open: set<Cell>, src: Cell, dst: Cell, b: int, b': int)
    requires Reaches(size, open, src, dst, b)
    requires (b >= 0 && b <= b') || (b < 0 && b' < 0)
    ensures Reaches(size, open, src, dst, b')
  {
    var w :| IsWalk(size, open, w) && w[0] == src && w[|w| - 1] == dst && (b < 0 || |w| - 1 <= b);
    assert IsWalk(size, open, w) && w[0] == src && w[|w| - 1] == dst && (b' < 0 || |w| - 1 <= b');
  }

  /** A queue entry of the search: a cell and the distance it may still go. */
  datatype Entry = Entry(cell: Cell, dist: int)

  /** Distances keep the sign of the starting one, and a non-negative one never exceeds it. */
  predicate SignOk(d0: int, d: int)
  {
    if d0 < 0 then d < 0 else 0 <= d <= d0
  }

  /** The budget spent to reach an entry with distance d left, for a search started with d0. */
  function Spent(d0: int, d: int): int
  {
    if d0 < 0 then d0 else d0 - d
  }

  /**
   * The entries a dequeued cell adds: its neighbours `ns` that are neither
   * marked nor BLACK, in neighbour order, each with distance e.
   */
  ghost function Pushes(size: nat, open: set<Cell>, ns: seq<Cell>, marked: set<Cell>, e: int): (r: seq<Entry>)
    requires forall n :: n in ns ==> InGrid(size, n)
    ensures forall x :: x in r ==> x.dist == e && x.cell in ns && x.cell !in marked && x.cell in open
    ensures forall n :: n in ns && n !in marked && n in open ==> Entry(n, e) in r
    decreases |ns|
  {
    if |ns| == 0 then []
    else
      var init, n := ns[..|ns| - 1], ns[|ns| - 1];
      assert forall m :: m in ns ==> m in init || m == n;
      Pushes(size, open, init, marked, e) + (if n !in marked && n in open then [Entry(n, e)] else [])
  }

  /** Every entry and every marked cell lie in the grid. */
  ghost predicate BfsShape(size: nat, open: set<Cell>, mm: map<Cell, int>, q: seq<Entry>)
  {
    (forall c :: c in mm ==> InGrid(size, c)) &&
    (forall a :: 0 <= a < |q| ==> InGrid(size, q[a].cell))
  }

  /**
   * Soundness: every entry is reached from src within the budget it has
   * spent, and every marked cell within the whole budget d0.
   */
  ghost predicate BfsSound(size: nat, open: set<Cell>, src: Cell, d0: int, mm: map<Cell, int>, q: seq<Entry>)
  {
    (forall a :: 0 <= a < |q| ==> SignOk(d0, q[a].dist) && Reaches(size, open, src, q[a].cell, Spent(d0, q[a].dist))) &&
    (forall c :: c in mm ==> SignOk(d0, mm[c]) && Reaches(size, open, src, c, d0))
  }

  /**
   * The queue's distances never increase and differ by at most one; a
   * marked cell's distance (the one it was first dequeued with) is at
   * least the head's.
   */
  ghost predicate BfsOrder(mm: map<Cell, int>, q: seq<Entry>)
  {
    (forall a, b :: 0 <= a < b < |q| ==> q[a].dist >= q[b].dist) &&
    (forall a :: 0 <= a < |q| ==> q[a].dist >= q[0].dist - 1) &&
    (|q| > 0 ==> forall c :: c in mm ==> mm[c] >= q[0].dist)
  }

  /** y was marked with at least distance d, or is queued with at least d. */
  ghost predicate Covered(mm: map<Cell, int>, q: seq<Entry>, y: Cell, d: int)
  {
    (y in mm && mm[y] >= d) || exists a :: 0 <= a < |q| && q[a].cell == y && q[a].dist >= d
  }

  /**
   * Completeness so far: a marked cell with distance left has each of its
   * non-BLACK neighbours marked or queued with at most one less.
   */
  ghost predicate BfsClosed(size: nat, open: set<Cell>, mm: map<Cell, int>, q: seq<Entry>)
  {
    forall x, y :: x in mm && mm[x] != 0 && y in Neighbors(size, x.0, x.1) && y in open ==>
      Covered(mm, q, y, mm[x] - 1)
  }

  /** The start is marked with the full distance, or the search has not begun. */
  ghost predicate BfsStart(src: Cell, d0: int, mm: map<Cell, int>, q: seq<Entry>)
  {
    (src in mm && mm[src] == d0) || (mm == map[] && q == [Entry(src, d0)])
  }

  ghost predicate BfsOk(size: nat, open: set<Cell>, src: Cell, d0: int, mm: map<Cell, int>, q: seq<Entry>)
  {
    BfsShape(size, open, mm, q) && BfsSound(size, open, src, d0, mm, q) && BfsOrder(mm, q) &&
    BfsClosed(size, open, mm, q) && BfsStart(src, d0, mm, q)
  }

  /** The marks after dequeuing x with distance d: a cell keeps the distance it was first dequeued with. */
  function Mark(mm: map<Cell, int>, x: Cell, d: int): (r: map<Cell, int>)
    ensures r.Keys == mm.Keys + {x} && r[x] == (if x in mm then mm[x] else d)
    ensures forall c :: c in mm ==> r[c] == mm[c]
  {
    if x in mm then mm else mm[x := d]
  }

  /** The entries added when x is dequeued with distance d. */
  ghost function Added(size: nat, open: set<Cell>, mm: map<Cell, int>, x: Cell, d: int): seq<Entry>
  {
    if d == 0 then [] else Pushes(size, open, Neighbors(size, x.0, x.1), Mark(mm, x, d).Keys, d - 1)
  }

  /** One iteration of the search keeps its invariant. */
  lemma BfsStep(size: nat, open: set<Cell>, src: Cell, d0: int, mm: map<Cell, int>, q: seq<Entry>)
    requires BfsOk(size, open, src, d0, mm, q) && |q| > 0
    ensures BfsOk(size, open, src, d0, Mark(mm, q[0].cell, q[0].dist), q[1..] + Added(size, open, mm, q[0].cell, q[0].dist))
  {
    var x, d := q[0].cell, q[0].dist;
    var pushed := Added(size, open, mm, x, d);
    StepShape(size, open, mm, q, pushed);
    StepSound(size, open, src, d0, mm, q, pushed);
    StepStart(src, d0, mm, q, pushed);
    StepOrder(mm, q, pushed);
    StepClosed(size, open, mm, q, pushed);
  }

  /** What the step lemmas need of the added entries. */
  ghost predicate AddedOk(size: nat, open: set<Cell>, x: Cell, d: int, pushed: seq<Entry>)
  {
    forall e :: e in pushed ==>
      d != 0 && e.dist == d - 1 && e.cell in Neighbors(size, x.0, x.1) && e.cell in open
  }

  lemma StepShape(size: nat, open: set<Cell>, mm: map<Cell, int>, q: seq<Entry>, pushed: seq<Entry>)
    requires |q| > 0 && BfsShape(size, open, mm, q) && AddedOk(size, open, q[0].cell, q[0].dist, pushed)
    ensures BfsShape(size, open, Mark(mm, q[0].cell, q[0].dist), q[1..] + pushed)
  {
    var q' := q[1..] + pushed;
    forall a | 0 <= a < |q'|
      ensures InGrid(size, q'[a].cell)
    {
      if a < |q| - 1 {
        assert q'[a] == q[a + 1];
      } else {
        assert q'[a] in pushed;
      }
    }
  }

  lemma StepSound(size: nat, open: set<Cell>, src: Cell, d0: int, mm: map<Cell, int>, q: seq<Entry>, pushed: seq<Entry>)
    requires |q| > 0 && BfsShape(size, open, mm, q) && BfsSound(size, open, src, d0, mm, q)
    requires AddedOk(size, open, q[0].cell, q[0].dist, pushed)
    ensures BfsSound(size, open, src, d0, Mark(mm, q[0].cell, q[0].dist), q[1..] + pushed)
  {
    var x, d := q[0].cell, q[0].dist;
    var q' := q[1..] + pushed;
    ReachesMono(size, open, src, x, Spent(d0, d), d0);
    forall a | 0 <= a < |q'|
      ensures SignOk(d0, q'[a].dist) && Reaches(size, open, src, q'[a].cell, Spent(d0, q'[a].dist))
    {
      if a < |q| - 1 {
        assert q'[a] == q[a + 1];
      } else {
        var e := q'[a];
        assert e in pushed;
        ReachesStep(size, open, src, x, e.cell, Spent(d0, d));
      }
    }
  }

  lemma StepStart(src: Cell, d0: int, mm: map<Cell, int>, q: seq<Entry>, pushed: seq<Entry>)
    requires |q| > 0 && BfsStart(src, d0, mm, q)
    ensures BfsStart(src, d0, Mark(mm, q[0].cell, q[0].dist), q[1..] + pushed)
  {
  }

  lemma StepOrder(mm: map<Cell, int>, q: seq<Entry>, pushed: seq<Entry>)
    requires BfsOrder(mm, q) && |q| > 0
    requires forall e :: e in pushed ==> e.dist == q[0].dist - 1
    ensures BfsOrder(Mark(mm, q[0].cell, q[0].dist), q[1..] + pushed)
  {
    StepBand(q, pushed);
    StepMonotone(q, pushed);
  }

  /** After a step every queued distance is the old head's or one less. */
  lemma StepBand(q: seq<Entry>, pushed: seq<Entry>)
    requires |q| > 0 && forall a :: 0 <= a < |q| ==> q[a].dist <= q[0].dist && q[a].dist >= q[0].dist - 1
    requires forall e :: e in pushed ==> e.dist == q[0].dist - 1
    ensures forall a :: 0 <= a < |q[1..] + pushed| ==> q[0].dist - 1 <= (q[1..] + pushed)[a].dist <= q[0].dist
  {
    var q' := q[1..] + pushed;
    forall a | 0 <= a < |q'|
      ensures q[0].dist - 1 <= q'[a].dist <= q[0].dist
    {
      if a < |q| - 1 {
        assert q'[a] == q[a + 1];
      } else {
        assert q'[a] == pushed[a - (|q| - 1)];
      }
    }
  }

  /** After a step the queued distances still never increase. */
  lemma StepMonotone(q: seq<Entry>, pushed: seq<Entry>)
    requires |q| > 0 && forall a, b :: 0 <= a < b < |q| ==> q[a].dist >= q[b].dist
    requires forall a :: 0 <= a < |q| ==> q[a].dist >= q[0].dist - 1
    requires forall e :: e in pushed ==> e.dist == q[0].dist - 1
    ensures forall a, b :: 0 <= a < b < |q[1..] + pushed| ==> (q[1..] + pushed)[a].dist >= (q[1..] + pushed)[b].dist
  {
    var q' := q[1..] + pushed;
    forall a, b | 0 <= a < b < |q'|
      ensures q'[a].dist >= q'[b].dist
    {
      if b < |q| - 1 {
        assert q'[a] == q[a + 1] && q'[b] == q[b + 1];
      } else {
        assert q'[b] == pushed[b - (|q| - 1)];
        if a < |q| - 1 {
          assert q'[a] == q[a + 1];
        } else {
          assert q'[a] == pushed[a - (|q| - 1)];
        }
      }
    }
  }

  lemma StepClosed(size: nat, open: set<Cell>, mm: map<Cell, int>, q: seq<Entry>, pushed: seq<Entry>)
    requires |q| > 0 && BfsClosed(size, open, mm, q) && BfsOrder(mm, q)
    requires q[0].dist != 0 ==> forall y ::
      (y in Neighbors(size, q[0].cell.0, q[0].cell.1) && y !in Mark(mm, q[0].cell, q[0].dist) && y in open) ==>
      Entry(y, q[0].dist - 1) in pushed
    ensures BfsClosed(size, open, Mark(mm, q[0].cell, q[0].dist), q[1..] + pushed)
  {
    var x, d := q[0].cell, q[0].dist;
    var mm' := Mark(mm, x, d);
    var q' := q[1..] + pushed;
    forall x', y | x' in mm' && mm'[x'] != 0 && y in Neighbors(size, x'.0, x'.1) && y in open
      ensures Covered(mm', q', y, mm'[x'] - 1)
    {
      if x' !in mm {
        if y !in mm' {
          var a :| 0 <= a < |pushed| && pushed[a] == Entry(y, d - 1);
          assert q'[|q| - 1 + a] == pushed[a];
        }
      } else {
        assert Covered(mm, q, y, mm[x'] - 1);
        if !(y in mm && mm[y] >= mm[x'] - 1) {
          var a :| 0 <= a < |q| && q[a].cell == y && q[a].dist >= mm[x'] - 1;
          if a > 0 {
            assert q'[a - 1] == q[a];
          }
        }
      }
    }
  }

  /**
   * Once the queue is empty, the search has marked every cell reachable
   * from its start within its budget.
   */
  lemma BfsComplete(size: nat, open: set<Cell>, src: Cell, d0: int, mm: map<Cell, int>, c: Cell)
    requires BfsOk(size, open, src, d0, mm, []) && Reaches(size, open, src, c, d0)
    ensures c in mm
  {
    var w :| IsWalk(size, open, w) && w[0] == src && w[|w| - 1] == c && (d0 < 0 || |w| - 1 <= d0);
    WalkMarked(size, open, d0, mm, w, |w| - 1);
  }

  /** With the queue empty, the marked cells are exactly the cells reachable within the budget. */
  lemma SearchDone(size: nat, open: set<Cell>, src: Cell, d0: int, mm: map<Cell, int>)
    requires BfsOk(size, open, src, d0, mm, [])
    ensures forall c :: c in mm <==> Reaches(size, open, src, c, d0)
  {
    forall c | Reaches(size, open, src, c, d0)
      ensures c in mm
    {
      BfsComplete(size, open, src, d0, mm, c);
    }
  }

  lemma {:induction false} WalkMarked(size: nat, open: set<Cell>, d0: int, mm: map<Cell, int>, w: seq<Cell>, k: int)
    requires BfsClosed(size, open, mm, []) && forall c :: c in mm ==> SignOk(d0, mm[c])
    requires IsWalk(size, open, w) && w[0] in mm && mm[w[0]] == d0 && (d0 < 0 || |w| - 1 <= d0)
    requires 0 <= k < |w|
    ensures w[k] in mm && (d0 >= 0 ==> mm[w[k]] >= d0 - k)
  {
    if k > 0 {
      WalkMarked(size, open, d0, mm, w, k - 1);
      var x, y := w[k - 1], w[k];
      assert y in Neighbors(size, x.0, x.1) && y in open;
      assert mm[x] != 0;
      assert Covered(mm, [], y, mm[x] - 1);
    }
  }

  /** The number of queue entries whose cell is already marked. */
  ghost function MarkedCount(q: seq<Entry>, marked: set<Cell>): nat
  {
    if |q| == 0 then 0 else (if q[0].cell in marked then 1 else 0) + MarkedCount(q[1..], marked)
  }

  lemma {:induction false} MarkedCountAppend(a: seq<Entry>, b: seq<Entry>, marked: set<Cell>)
    ensures MarkedCount(a + b, marked) == MarkedCount(a, marked) + MarkedCount(b, marked)
  {
    if |a| == 0 {
      assert a + b == b;
    } else {
      assert (a + b)[1..] == a[1..] + b;
      MarkedCountAppend(a[1..], b, marked);
    }
  }

  lemma {:induction false} MarkedCountNone(b: seq<Entry>, marked: set<Cell>)
    requires forall e :: e in b ==> e.cell !in marked
    ensures MarkedCount(b, marked) == 0
  {
    if |b| > 0 {
      assert forall e :: e in b[1..] ==> e in b;
      MarkedCountNone(b[1..], marked);
    }
  }

  /**
   * Each iteration shrinks the set of unmarked cells, or keeps it and
   * removes one entry of an already marked cell.
   */
  lemma MeasureStep(size: nat, mm: map<Cell, int>, q: seq<Entry>, pushed: seq<Entry>)
    requires |q| > 0 && InGrid(size, q[0].cell)
    requires forall e :: e in pushed ==> e.cell !in Mark(mm, q[0].cell, q[0].dist).Keys
    ensures var mm' := Mark(mm, q[0].cell, q[0].dist);
      AllCells(size) - mm'.Keys < AllCells(size) - mm.Keys ||
      (mm'.Keys == mm.Keys && MarkedCount(q[1..] + pushed, mm'.Keys) < MarkedCount(q, mm.Keys))
  {
    if q[0].cell in mm {
      MarkedCountAppend(q[1..], pushed, mm.Keys);
      MarkedCountNone(pushed, mm.Keys);
    } else {
      assert q[0].cell in AllCells(size) - mm.Keys;
    }
  }

  /** One iteration keeps every cell in the grid, and shrinks the measure the search terminates by. */
  lemma Successor(size: nat, open: set<Cell>, mm: map<Cell, int>, q: seq<Entry>)
    requires BfsShape(size, open, mm, q) && |q| > 0
    ensures var mm', q' := Mark(mm, q[0].cell, q[0].dist), q[1..] + Added(size, open, mm, q[0].cell, q[0].dist);
      BfsShape(size, open, mm', q') &&
      (AllCells(size) - mm'.Keys < AllCells(size) - mm.Keys ||
       (mm'.Keys == mm.Keys && MarkedCount(q', mm'.Keys) < MarkedCount(q, mm.Keys)))
  {
    var pushed := Added(size, open, mm, q[0].cell, q[0].dist);
    StepShape(size, open, mm, q, pushed);
    MeasureStep(size, mm, q, pushed);
  }

  /**
   * The search as a function: the marks it ends with when started from
   * the marks mm and the queue q. Each step dequeues the head, marks its
   * cell unless already marked, and queues the unmarked non-BLACK
   * neighbours with one less distance unless the head's distance is 0.
   */
  ghost function Search(size: nat, open: set<Cell>, mm: map<Cell, int>, q: seq<Entry>): map<Cell, int>
    requires BfsShape(size, open, mm, q)
    decreases AllCells(size) - mm.Keys, MarkedCount(q, mm.Keys)
  {
    if |q| == 0 then mm
    else
      Successor(size, open, mm, q);
      Search(size, open, Mark(mm, q[0].cell, q[0].dist), q[1..] + Added(size, open, mm, q[0].cell, q[0].dist))
  }

  /** One step of the search leaves its outcome unchanged. */
  lemma SearchNext(size: nat, open: set<Cell>, mm: map<Cell, int>, q: seq<Entry>)
    requires BfsShape(size, open, mm, q) && |q| > 0
    ensures var mm', q' := Mark(mm, q[0].cell, q[0].dist), q[1..] + Added(size, open, mm, q[0].cell, q[0].dist);
      BfsShape(size, open, mm', q') && Search(size, open, mm', q') == Search(size, open, mm, q) &&
      (AllCells(size) - mm'.Keys < AllCells(size) - mm.Keys ||
       (mm'.Keys == mm.Keys && MarkedCount(q', mm'.Keys) < MarkedCount(q, mm.Keys)))
  {
    Successor(size, open, mm, q);
  }

  /** The search's starting state satisfies its invariant. */
  lemma SearchStart(size: nat, open: set<Cell>, src: Cell, d0: int)
    requires InGrid(size, src)
    ensures BfsOk(size, open, src, d0, map[], [Entry(src, d0)])
  {
    ReachesSelf(size, open, src, Spent(d0, d0));
  }

  /**
   * From any state satisfying the invariant, the search ends having marked
   * exactly the cells reachable from src within the budget d0.
   */
  lemma {:induction false} SearchSound(size: nat, open: set<Cell>, src: Cell, d0: int, mm: map<Cell, int>, q: seq<Entry>)
    requires BfsOk(size, open, src, d0, mm, q)
    ensures forall c :: c in Search(size, open, mm, q) <==> Reaches(size, open, src, c, d0)
    decreases AllCells(size) - mm.Keys, MarkedCount(q, mm.Keys)
  {
    if |q| == 0 {
      SearchDone(size, open, src, d0, mm);
    } else {
      BfsStep(size, open, src, d0, mm, q);
      Successor(size, open, mm, q);
      SearchSound(size, open, src, d0, Mark(mm, q[0].cell, q[0].dist), q[1..] + Added(size, open, mm, q[0].cell, q[0].dist));
    }
  }

  /** The cells the search from src marks are the cells reachable within d0 steps. */
  lemma SearchReaches(size: nat, open: set<Cell>, src: Cell, d0: int)
    requires InGrid(size, src)
    ensures BfsShape(size, open, map[], [Entry(src, d0)])
    ensures forall c :: c in Search(size, open, map[], [Entry(src, d0)]) <==> Reaches(size, open, src, c, d0)
  {
    SearchStart(size, open, src, d0);
    SearchSound(size, open, src, d0, map[], [Entry(src, d0)]);
  }

  /** The cells of the grid stamped with id. */
  ghost function Stamped(size: nat, visited: array2<int>, id: int): (r: set<Cell>)
    reads visited
    requires visited.Length0 == size && visited.Length1 == size
    ensures forall c :: c in r <==> InGrid(size, c) && visited[c.0, c.1] == id
  {
    set a, b | 0 <= a < size && 0 <= b < size && visited[a, b] == id :: (a, b)
  }

  /** Stamps one cell: the stamped set grows by that cell and no other entry changes. */
  method Stamp(size: nat, visited: array2<int>, ci: int, cj: int, id: int)
    requires visited.Length0 == size && visited.Length1 == size && IsValidCell(size, ci, cj)
    modifies visited
    ensures Stamped(size, visited, id) == old(Stamped(size, visited, id)) + {(ci, cj)}
    ensures forall a, b :: 0 <= a < size && 0 <= b < size ==>
      visited[a, b] == if (a, b) == (ci, cj) then id else old(visited[a, b])
  {
    visited[ci, cj] := id;
  }

  /**
   * The inner loop of the search: the neighbours of the dequeued cell
   * x that are neither stamped nor BLACK, each queued with distance d - 1.
   */
  method Expand(p: Puzzle, ghost open: set<Cell>, visited: array2<int>, id: int, ghost mm: map<Cell, int>, x: Cell, d: int)
    returns (pushed: seq<Entry>)
    requires p.Valid() && open == OpenCells(p) && d != 0
    requires visited.Length0 == p.size && visited.Length1 == p.size
    requires Stamped(p.size, visited, id) == Mark(mm, x, d).Keys
    ensures pushed == Added(p.size, open, mm, x, d)
  {
    ghost var marked := Mark(mm, x, d).Keys;
    var (ci, cj) := x;
    var e := d - 1;
    var ns := Neighbors(p.size, ci, cj);
    pushed := [];
    assert ns[..0] == [];
    for r := 0 to |ns|
      invariant pushed == Pushes(p.size, open, ns[..r], marked, e)
    {
      var queueable := Fresh(p, open, visited, id, marked, ns[r]);
      PushesNext(p.size, open, ns, r, marked, e);
      if queueable {
        pushed := pushed + [Entry(ns[r], e)];
      }
    }
    assert ns[..|ns|] == ns;
  }

  /** Whether the search may still queue n: n is neither stamped nor BLACK. */
  method Fresh(p: Puzzle, ghost open: set<Cell>, visited: array2<int>, id: int, ghost marked: set<Cell>, n: Cell)
    returns (queueable: bool)
    requires p.Valid() && open == OpenCells(p) && InGrid(p.size, n)
    requires visited.Length0 == p.size && visited.Length1 == p.size
    requires Stamped(p.size, visited, id) == marked
    ensures queueable <==> n !in marked && n in open
  {
    var (ni, nj) := n;
    queueable := visited[ni, nj] != id && p.TypeOf(ni, nj) != BLACK;
  }

  /** Looking at one more neighbour appends at most its entry. */
  lemma PushesNext(size: nat, open: set<Cell>, ns: seq<Cell>, r: int, marked: set<Cell>, e: int)
    requires (forall n :: n in ns ==> InGrid(size, n)) && 0 <= r < |ns|
    ensures Pushes(size, open, ns[..r + 1], marked, e) ==
      Pushes(size, open, ns[..r], marked, e) + (if ns[r] !in marked && ns[r] in open then [Entry(ns[r], e)] else [])
  {
    assert ns[..r + 1][..r] == ns[..r] && ns[..r + 1][r] == ns[r];
  }

  /**
   * One iteration of the search: dequeue the head, stamp its cell and,
   * unless its distance is 0, queue its neighbours that are neither stamped
   * nor BLACK with one less.
   */
  method Visit(p: Puzzle, ghost open: set<Cell>, visited: array2<int>, id: int, queue: seq<Entry>, ghost mm: map<Cell, int>)
    returns (queue': seq<Entry>, ghost mm': map<Cell, int>)
    requires p.Valid() && open == OpenCells(p) && visited != p.board
    requires visited.Length0 == p.size && visited.Length1 == p.size
    requires |queue| > 0 && BfsShape(p.size, open, mm, queue)
    requires Stamped(p.size, visited, id) == mm.Keys
    modifies visited
    ensures mm' == Mark(mm, queue[0].cell, queue[0].dist)
    ensures queue' == queue[1..] + Added(p.size, open, mm, queue[0].cell, queue[0].dist)
    ensures BfsShape(p.size, open, mm', queue') && Search(p.size, open, mm', queue') == Search(p.size, open, mm, queue)
    ensures AllCells(p.size) - mm'.Keys < AllCells(p.size) - mm.Keys ||
      (mm'.Keys == mm.Keys && MarkedCount(queue', mm'.Keys) < MarkedCount(queue, mm.Keys))
    ensures Stamped(p.size, visited, id) == mm'.Keys
    ensures forall a, b :: 0 <= a < p.size && 0 <= b < p.size ==>
      visited[a, b] == if (a, b) == queue[0].cell then id else old(visited[a, b])
  {
    SearchNext(p.size, open, mm, queue);
    var e := queue[0];
    var (ci, cj) := e.cell;
    var d := e.dist;
    queue' := queue[1..];
    Stamp(p.size, visited, ci, cj, id);
    mm' := Mark(mm, e.cell, d);
    if d != 0 {
      var pushed := Expand(p, open, visited, id, mm, e.cell, d);
      queue' := queue' + pushed;
    } else {
      assert queue' == queue[1..] + [];
    }
  }

  /**
   * The search from one island cell: a FIFO queue of (cell, distance left)
   * entries, processed until it is empty. It stamps with id exactly the
   * cells reachable within `dist` steps (all the cells reachable at all
   * when `dist` is negative) and no other.
   */
  method Flood(p: Puzzle, visited: array2<int>, i: int, j: int, dist: int, id: int)
    requires p.Valid() && visited != p.board && visited.Length0 == p.size && visited.Length1 == p.size
    requires IsValidCell(p.size, i, j)
    requires forall a, b :: 0 <= a < p.size && 0 <= b < p.size ==> 0 <= visited[a, b] < id
    modifies visited
    ensures forall a, b :: 0 <= a < p.size && 0 <= b < p.size ==>
      visited[a, b] == if Reaches(p.size, OpenCells(p), (i, j), (a, b), dist) then id else old(visited[a, b])
  {
    ghost var open := OpenCells(p);
    var queue := [Entry((i, j), dist)];
    ghost var mm: map<Cell, int> := map[];
    assert BfsShape(p.size, open, mm, queue);
    ghost var final := Search(p.size, open, mm, queue);
    assert Stamped(p.size, visited, id) == {};
    while |queue| > 0
      invariant BfsShape(p.size, open, mm, queue) && Search(p.size, open, mm, queue) == final
      invariant Stamped(p.size, visited, id) == mm.Keys
      invariant forall a, b :: 0 <= a < p.size && 0 <= b < p.size ==> visited[a, b] == if (a, b) in mm then id else old(visited[a, b])
      decreases AllCells(p.size) - mm.Keys, MarkedCount(queue, mm.Keys)
    {
      queue, mm := Visit(p, open, visited, id, queue, mm);
    }
    SearchReaches(p.size, open, (i, j), dist);
  }

  /** The cells of the grid with a non-zero entry: those some search has stamped. */
  ghost function Touched(size: nat, visited: array2<int>): (r: set<Cell>)
    reads visited
    requires visited.Length0 == size && visited.Length1 == size
    ensures forall c :: c in r <==> InGrid(size, c) && visited[c.0, c.1] != 0
  {
    set a, b | 0 <= a < size && 0 <= b < size && visited[a, b] != 0 :: (a, b)
  }

  /** Every entry is a stamp below id (0 meaning none). */
  ghost predicate Below(size: nat, visited: array2<int>, id: int)
    reads visited
    requires visited.Length0 == size && visited.Length1 == size
  {
    forall a, b :: 0 <= a < size && 0 <= b < size ==> 0 <= visited[a, b] < id
  }

  /** The cells reachable from src within dist steps. */
  ghost function ReachSet(size: nat, open: set<Cell>, src: Cell, dist: int): (r: set<Cell>)
    ensures forall c :: c in r <==> InGrid(size, c) && Reaches(size, open, src, c, dist)
  {
    set a, b | 0 <= a < size && 0 <= b < size && Reaches(size, open, src, (a, b), dist) :: (a, b)
  }

  /** Some cell of `cells` reaches c within dist steps. */
  ghost predicate FromCells(size: nat, open: set<Cell>, cells: seq<Cell>, dist: int, c: Cell)
  {
    exists s :: s in cells && Reaches(size, open, s, c, dist)
  }

  /** The cells reachable from some cell of `cells` within dist steps. */
  ghost function CellsReach(size: nat, open: set<Cell>, cells: seq<Cell>, dist: int): (r: set<Cell>)
    ensures forall c :: c in r <==> InGrid(size, c) && FromCells(size, open, cells, dist, c)
  {
    set a, b | 0 <= a < size && 0 <= b < size && FromCells(size, open, cells, dist, (a, b)) :: (a, b)
  }

  /** How many more cells an island may still take: a negative budget when it is already too large. */
  function Budget(isl: Component): int
  {
    isl.RequiredSize() - isl.Size()
  }

  /** The cells some island cell reaches within its island's budget, accumulated island by island. */
  ghost function IslandsReach(size: nat, open: set<Cell>, islands: seq<Component>): set<Cell>
    decreases |islands|
  {
    if |islands| == 0 then {}
    else
      var k := |islands| - 1;
      IslandsReach(size, open, islands[..k]) + CellsReach(size, open, islands[k].cells, Budget(islands[k]))
  }

  /** Some island among the first n reaches c within its budget. */
  ghost predicate FromIslands(size: nat, open: set<Cell>, islands: seq<Component>, n: int, c: Cell)
    requires n <= |islands|
  {
    exists k :: 0 <= k < n && FromCells(size, open, islands[k].cells, Budget(islands[k]), c)
  }

  /** A cell is in IslandsReach exactly when some cell of some island reaches it within that island's budget. */
  lemma {:induction false} IslandsReachMember(size: nat, open: set<Cell>, islands: seq<Component>, c: Cell)
    ensures c in IslandsReach(size, open, islands) <==> InGrid(size, c) && FromIslands(size, open, islands, |islands|, c)
    decreases |islands|
  {
    if |islands| > 0 {
      var n := |islands| - 1;
      var init := islands[..n];
      IslandsReachMember(size, open, init, c);
      assert c in IslandsReach(size, open, islands) <==>
        c in IslandsReach(size, open, init) || c in CellsReach(size, open, islands[n].cells, Budget(islands[n]));
      FromIslandsPrefix(size, open, islands, n, c);
    }
  }

  /** Whether the first n islands reach c does not depend on the islands after them. */
  lemma FromIslandsPrefix(size: nat, open: set<Cell>, islands: seq<Component>, n: int, c: Cell)
    requires 0 <= n < |islands|
    ensures FromIslands(size, open, islands, n + 1, c) <==>
      FromIslands(size, open, islands[..n], n, c) || FromCells(size, open, islands[n].cells, Budget(islands[n]), c)
  {
    if FromIslands(size, open, islands, n + 1, c) {
      var k :| 0 <= k < n + 1 && FromCells(size, open, islands[k].cells, Budget(islands[k]), c);
      if k < n {
        assert islands[..n][k] == islands[k];
      }
    }
    if FromIslands(size, open, islands[..n], n, c) {
      var k :| 0 <= k < n && FromCells(size, open, islands[..n][k].cells, Budget(islands[..n][k]), c);
      assert islands[..n][k] == islands[k];
    }
  }

  lemma CellsReachNext(size: nat, open: set<Cell>, cells: seq<Cell>, r: int, dist: int)
    requires 0 <= r < |cells|
    ensures CellsReach(size, open, cells[..r + 1], dist) == CellsReach(size, open, cells[..r], dist) + ReachSet(size, open, cells[r], dist)
  {
    assert cells[..r + 1] == cells[..r] + [cells[r]];
  }

  lemma IslandsReachNext(size: nat, open: set<Cell>, islands: seq<Component>, k: int)
    requires 0 <= k < |islands|
    ensures IslandsReach(size, open, islands[..k + 1]) ==
      IslandsReach(size, open, islands[..k]) + CellsReach(size, open, islands[k].cells, Budget(islands[k]))
  {
    assert islands[..k + 1][..k] == islands[..k];
  }

  /** One search, seen from the whole matrix: the touched cells grow by the cells it reaches. */
  method FloodFrom(p: Puzzle, visited: array2<int>, i: int, j: int, dist: int, id: int)
    requires p.Valid() && visited != p.board && visited.Length0 == p.size && visited.Length1 == p.size
    requires IsValidCell(p.size, i, j) && id > 0 && Below(p.size, visited, id)
    modifies visited
    ensures Touched(p.size, visited) == old(Touched(p.size, visited)) + ReachSet(p.size, OpenCells(p), (i, j), dist)
    ensures Below(p.size, visited, id + 1)
  {
    Flood(p, visited, i, j, dist, id);
  }

  /** The searches from every cell of one island, each with its own id. */
  method FloodIsland(p: Puzzle, ghost open: set<Cell>, visited: array2<int>, cells: seq<Cell>, dist: int, id: int) returns (next: int)
    requires p.Valid() && open == OpenCells(p) && visited != p.board && visited.Length0 == p.size && visited.Length1 == p.size
    requires AllInGrid(p.size, cells) && id > 0 && Below(p.size, visited, id)
    modifies visited
    ensures Touched(p.size, visited) == old(Touched(p.size, visited)) + CellsReach(p.size, open, cells, dist)
    ensures next == id + |cells| && Below(p.size, visited, next)
  {
    ghost var before := Touched(p.size, visited);
    next := id;
    assert CellsReach(p.size, open, cells[..0], dist) == {};
    for r := 0 to |cells|
      invariant Touched(p.size, visited) == before + CellsReach(p.size, open, cells[..r], dist)
      invariant next == id + r && Below(p.size, visited, next)
    {
      var (i, j) := cells[r];
      FloodFrom(p, visited, i, j, dist, next);
      CellsReachNext(p.size, open, cells, r, dist);
      next := next + 1;
    }
    assert cells[..|cells|] == cells;
  }

  /** The BLACK updates for the WHITE cells no search has touched. */
  method Untouched(p: Puzzle, visited: array2<int>, ghost reached: set<Cell>) returns (updates: seq<Update>)
    requires p.Valid() && visited.Length0 == p.size && visited.Length1 == p.size
    requires Touched(p.size, visited) == reached
    ensures forall u :: u in updates <==>
      u.value == BLACK && InGrid(p.size, u.Target()) && p.TypeAt(u.Target()) == WHITE && u.Target() !in reached
  {
    var all := BoardCells(p.size, 0);
    updates := [];
    for t := 0 to |all|
      invariant forall u :: u in updates <==>
        u.value == BLACK && u.Target() in all[..t] && p.TypeAt(u.Target()) == WHITE && u.Target() !in reached
    {
      var (i, j) := all[t];
      assert all[..t + 1] == all[..t] + [all[t]];
      if visited[i, j] == 0 && p.TypeOf(i, j) == WHITE {
        updates := updates + [Update(i, j, BLACK)];
      }
    }
    assert all[..|all|] == all;
  }

  /** u blackens a WHITE cell that no cell of any island reaches within its island's budget. */
  ghost predicate UnreachableFires(p: Puzzle, islands: seq<Component>, u: Update)
    reads p.board
    requires p.Valid()
  {
    u.value == BLACK && InGrid(p.size, u.Target()) && p.TypeAt(u.Target()) == WHITE &&
    !FromIslands(p.size, OpenCells(p), islands, |islands|, u.Target())
  }

  /**
   * The reachability rule: a search from every island cell with its
   * island's budget, each under a fresh id, then BLACK for every WHITE
   * cell that none of them reached.
   */
  method CoverUnreachables(p: Puzzle, islands: seq<Component>) returns (updates: seq<Update>)
    requires p.Valid() && forall k :: 0 <= k < |islands| ==> AllInGrid(p.size, islands[k].cells)
    ensures forall u :: u in updates <==> UnreachableFires(p, islands, u)
  {
    var visited := new int[p.size, p.size]((_, _) => 0);
    ghost var open := OpenCells(p);
    var id := 1;
    assert Touched(p.size, visited) == {};
    assert IslandsReach(p.size, open, islands[..0]) == {};
    for k := 0 to |islands|
      invariant Touched(p.size, visited) == IslandsReach(p.size, open, islands[..k])
      invariant id > 0 && Below(p.size, visited, id)
    {
      var island := islands[k];
      id := FloodIsland(p, open, visited, island.cells, Budget(island), id);
      IslandsReachNext(p.size, open, islands, k);
    }
    assert islands[..|islands|] == islands;
    updates := Untouched(p, visited, IslandsReach(p.size, open, islands));
    IslandsReachAll(p.size, open, islands);
  }

  /** IslandsReach holds exactly the grid cells some island reaches. */
  lemma IslandsReachAll(size: nat, open: set<Cell>, islands: seq<Component>)
    ensures forall c :: c in IslandsReach(size, open, islands) <==> InGrid(size, c) && FromIslands(size, open, islands, |islands|, c)
  {
    forall c
      ensures c in IslandsReach(size, open, islands) <==> InGrid(size, c) && FromIslands(size, open, islands, |islands|, c)
    {
      IslandsReachMember(size, open, islands, c);
    }
  }
}
