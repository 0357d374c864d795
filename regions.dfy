/**
 * Region extraction: the flood fill that splits the grid into Streams
 * (4-connected BLACK regions) and Islands (4-connected DOT regions that
 * contain a clue, found from that clue).
 */
module Regions {
  import opened Grid
  import opened Board

  /**
   * A component: its root (the cell the flood fill started from) and its
   * cells in the order the fill reached them. Only an island has a clue.
   */
  datatype Component =
    | Stream(root: Cell, cells: seq<Cell>)
    | Island(root: Cell, cells: seq<Cell>, clue: int)
  {
    /** The target size; a stream keeps the default -1. */
    function RequiredSize(): int
    {
      if Stream? then -1 else clue
    }

    /** The value the component's cells read as, and the value it grows with. */
    function Type(): int
    {
      if Stream? then BLACK else DOT
    }

    function Size(): nat
    {
      |cells|
    }
  }

  predicate Distinct(s: seq<Cell>)
  {
    forall x, y :: 0 <= x < y < |s| ==> s[x] != s[y]
  }

  /** The cell at position k touches a cell listed before it. */
  predicate TouchesEarlier(s: seq<Cell>, k: int)
    requires 0 <= k < |s|
  {
    exists m :: 0 <= m < k && Adjacent(s[m], s[k])
  }

  /** Every cell after the first touches an earlier one. */
  predicate Connected(s: seq<Cell>)
  {
    forall k :: 0 < k < |s| ==> TouchesEarlier(s, k)
  }

  predicate AllInGrid(size: int, s: seq<Cell>)
  {
    forall c :: c in s ==> InGrid(size, c)
  }

  /** No same-typed neighbour of a member lies outside. */
  ghost predicate RegionClosed(p: Puzzle, s: seq<Cell>)
    reads p.board
    requires p.Valid() && AllInGrid(p.size, s)
  {
    forall c, n :: c in s && n in Neighbors(p.size, c.0, c.1) && p.TypeAt(n) == p.TypeAt(c) ==> n in s
  }

  /** A maximal 4-connected set of cells of one type, listed without repetition. */
  ghost predicate IsRegion(p: Puzzle, s: seq<Cell>)
    reads p.board
    requires p.Valid()
  {
    |s| > 0 && AllInGrid(p.size, s) && Distinct(s) && Connected(s) &&
    (forall c :: c in s ==> p.TypeAt(c) == p.TypeAt(s[0])) &&
    RegionClosed(p, s)
  }

  ghost predicate IsStream(p: Puzzle, s: Component)
    reads p.board
    requires p.Valid()
  {
    s.Stream? && IsRegion(p, s.cells) && s.cells[0] == s.root && p.TypeAt(s.root) == BLACK
  }

  ghost predicate IsIsland(p: Puzzle, s: Component)
    reads p.board
    requires p.Valid()
  {
    s.Island? && IsRegion(p, s.cells) && s.cells[0] == s.root && InGrid(p.size, s.root) &&
    p.task[s.root.0][s.root.1] > 0 && s.clue == p.task[s.root.0][s.root.1]
  }

  ghost predicate InStreams(streams: seq<Component>, c: Cell)
  {
    exists k :: 0 <= k < |streams| && c in streams[k].cells
  }

  ghost predicate InIslands(islands: seq<Component>, c: Cell)
  {
    exists k :: 0 <= k < |islands| && c in islands[k].cells
  }

  /** No cell lies in two components. */
  ghost predicate Disjoint(streams: seq<Component>, islands: seq<Component>)
  {
    (forall k1, k2, c :: 0 <= k1 < k2 < |streams| && c in streams[k1].cells ==> c !in streams[k2].cells) &&
    (forall k1, k2, c :: 0 <= k1 < k2 < |islands| && c in islands[k1].cells ==> c !in islands[k2].cells) &&
    (forall k1, k2, c :: 0 <= k1 < |streams| && 0 <= k2 < |islands| && c in streams[k1].cells ==> c !in islands[k2].cells)
  }

  /**
   * What one extraction yields: streams and islands are regions of the
   * right kind, pairwise disjoint; every BLACK cell lies in a stream and
   * every clue cell in an island.
   */
  ghost predicate IsExtraction(p: Puzzle, streams: seq<Component>, islands: seq<Component>)
    reads p.board
    requires p.Valid()
  {
    (forall k :: 0 <= k < |streams| ==> IsStream(p, streams[k])) &&
    (forall k :: 0 <= k < |islands| ==> IsIsland(p, islands[k])) &&
    Disjoint(streams, islands) &&
    (forall c :: InGrid(p.size, c) && p.TypeAt(c) == BLACK ==> InStreams(streams, c)) &&
    (forall c :: InGrid(p.size, c) && p.task[c.0][c.1] > 0 ==> InIslands(islands, c))
  }

  /** The cells marked in a visited matrix. */
  ghost function VisitedSet(size: nat, visited: array2<bool>): (v: set<Cell>)
    reads visited
    requires visited.Length0 == size && visited.Length1 == size
    ensures forall c :: c in v <==> InGrid(size, c) && visited[c.0, c.1]
  {
    set a, b | 0 <= a < size && 0 <= b < size && visited[a, b] :: (a, b)
  }

  /** A set of cells closed under same-typed adjacency. */
  ghost predicate ClosedSet(p: Puzzle, v: set<Cell>)
    reads p.board
    requires p.Valid()
  {
    (forall c :: c in v ==> InGrid(p.size, c)) &&
    (forall c, n :: c in v && n in Neighbors(p.size, c.0, c.1) && p.TypeAt(n) == p.TypeAt(c) ==> n in v)
  }

  lemma ConnectedAppend(s: seq<Cell>, n: Cell, m: int)
    requires Connected(s) && 0 <= m < |s| && Adjacent(s[m], n)
    ensures Connected(s + [n])
  {
    var s' := s + [n];
    forall k | 0 < k < |s'|
      ensures TouchesEarlier(s', k)
    {
      if k == |s| {
        assert s'[m] == s[m] && s'[k] == n;
      } else {
        assert TouchesEarlier(s, k);
        var m' :| 0 <= m' < k && Adjacent(s[m'], s[k]);
        assert s'[m'] == s[m'] && s'[k] == s[k];
      }
    }
  }

  function SetOf(s: seq<Cell>): (r: set<Cell>)
    ensures forall c :: c in r <==> c in s
  {
    set c | c in s
  }

  /** All cells of the grid. */
  ghost function AllCells(size: nat): (r: set<Cell>)
    ensures forall c :: c in r <==> InGrid(size, c)
  {
    set a, b | 0 <= a < size && 0 <= b < size :: (a, b)
  }

  /**
   * The state of one fill: `order` lists the cells marked so far (those
   * dequeued, then those still queued); they are fresh, of type t,
   * distinct and connected, and the marked set is exactly v0 plus them.
   */
  ghost predicate FillOk(p: Puzzle, vis: set<Cell>, v0: set<Cell>, t: int, order: seq<Cell>)
    reads p.board
    requires p.Valid()
  {
    (forall c :: c in order ==> InGrid(p.size, c) && p.TypeAt(c) == t && c !in v0) &&
    Distinct(order) && Connected(order) &&
    vis == v0 + SetOf(order)
  }

  /** Marking and queueing a fresh same-typed neighbour of a listed cell keeps the fill's state. */
  lemma FillPush(p: Puzzle, vis: set<Cell>, v0: set<Cell>, t: int, order: seq<Cell>, n: Cell, xi: int)
    requires p.Valid() && FillOk(p, vis, v0, t, order)
    requires n !in vis && InGrid(p.size, n) && p.TypeAt(n) == t
    requires 0 <= xi < |order| && Adjacent(order[xi], n)
    ensures FillOk(p, vis + {n}, v0, t, order + [n])
  {
    ConnectedAppend(order, n, xi);
    assert SetOf(order + [n]) == SetOf(order) + {n};
  }

  /** Writing true into one cell of a visited matrix adds that cell to its set. */
  lemma MarkOne(size: nat, visited: array2<bool>, before: set<Cell>, n: Cell)
    requires visited.Length0 == size && visited.Length1 == size && InGrid(size, n)
    requires visited[n.0, n.1]
    requires forall c :: InGrid(size, c) && c != n ==> (visited[c.0, c.1] <==> c in before)
    requires forall c :: c in before ==> InGrid(size, c)
    ensures VisitedSet(size, visited) == before + {n}
  {
  }

  /** Marks one cell of a visited matrix: its set grows by that cell. */
  method MarkCell(size: nat, visited: array2<bool>, n: Cell)
    requires visited.Length0 == size && visited.Length1 == size && InGrid(size, n)
    modifies visited
    ensures VisitedSet(size, visited) == old(VisitedSet(size, visited)) + {n}
  {
    ghost var before := VisitedSet(size, visited);
    visited[n.0, n.1] := true;
    MarkOne(size, visited, before, n);
  }

  /**
   * One step of the fill's inner loop: every unmarked neighbour of x of the
   * fill's type is marked; `pushed` lists them in neighbour order, for the
   * caller to append to its queue.
   */
  method PushNeighbors(p: Puzzle, visited: array2<bool>, ghost v0: set<Cell>, ghost t: int,
                       x: Cell, ghost order: seq<Cell>, ghost xi: nat)
    returns (pushed: seq<Cell>)
    requires p.Valid() && visited.Length0 == p.size && visited.Length1 == p.size
    requires FillOk(p, VisitedSet(p.size, visited), v0, t, order)
    requires xi < |order| && order[xi] == x
    modifies visited
    ensures FillOk(p, VisitedSet(p.size, visited), v0, t, order + pushed)
    ensures forall n :: n in Neighbors(p.size, x.0, x.1) && p.TypeAt(n) == t ==> n in VisitedSet(p.size, visited)
    ensures old(VisitedSet(p.size, visited)) <= VisitedSet(p.size, visited)
    ensures old(VisitedSet(p.size, visited)) < VisitedSet(p.size, visited) || pushed == []
  {
    var ns := Neighbors(p.size, x.0, x.1);
    pushed := [];
    ghost var vis := VisitedSet(p.size, visited);
    assert order + pushed == order;
    for r := 0 to |ns|
      invariant PushState(p, VisitedSet(p.size, visited), vis, v0, t, order, xi, ns[..r], pushed)
    {
      assert ns[..r + 1] == ns[..r] + [ns[r]];
      pushed := PushOne(p, visited, v0, t, order, xi, x, vis, ns[..r], ns[r], pushed);
    }
    assert ns[..|ns|] == ns;
  }

  /**
   * The state of the neighbour loop: the cells pushed so far extend the
   * fill, every same-typed neighbour looked at is marked, and the marked
   * set has grown from vis0 exactly when something was pushed.
   */
  ghost predicate PushState(p: Puzzle, vis: set<Cell>, vis0: set<Cell>, v0: set<Cell>, t: int,
                            order: seq<Cell>, xi: int, seen: seq<Cell>, pushed: seq<Cell>)
    reads p.board
    requires p.Valid()
  {
    0 <= xi < |order| && FillOk(p, vis, v0, t, order + pushed) &&
    (forall n :: n in seen ==> InGrid(p.size, n) && (p.TypeAt(n) == t ==> n in vis)) &&
    vis0 <= vis && (vis0 < vis || pushed == [])
  }

  /** Looks at one neighbour n of order[xi]: a fresh cell of the fill's type is marked and pushed. */
  method PushOne(p: Puzzle, visited: array2<bool>, ghost v0: set<Cell>, ghost t: int, ghost order: seq<Cell>,
                 ghost xi: int, x: Cell, ghost vis0: set<Cell>, ghost seen: seq<Cell>, n: Cell, pushed: seq<Cell>)
    returns (pushed': seq<Cell>)
    requires p.Valid() && visited.Length0 == p.size && visited.Length1 == p.size
    requires PushState(p, VisitedSet(p.size, visited), vis0, v0, t, order, xi, seen, pushed)
    requires order[xi] == x && n in Neighbors(p.size, x.0, x.1)
    modifies visited
    ensures PushState(p, VisitedSet(p.size, visited), vis0, v0, t, order, xi, seen + [n], pushed')
  {
    pushed' := pushed;
    if !visited[n.0, n.1] && p.TypeAt(n) == p.TypeAt(x) {
      assert (order + pushed)[xi] == x;
      FillPush(p, VisitedSet(p.size, visited), v0, t, order + pushed, n, xi);
      MarkCell(p.size, visited, n);
      Assoc(order, pushed, [n]);
      pushed' := pushed + [n];
    }
  }

  /**
   * The breadth-first fill of the component containing (i, j): marks and
   * returns every cell reachable from (i, j) through cells of its type.
   */
  method FloodFill(p: Puzzle, visited: array2<bool>, i: int, j: int) returns (cells: seq<Cell>)
    requires p.Valid() && visited.Length0 == p.size && visited.Length1 == p.size
    requires IsValidCell(p.size, i, j) && !visited[i, j]
    requires ClosedSet(p, VisitedSet(p.size, visited))
    modifies visited
    ensures ClosedSet(p, VisitedSet(p.size, visited))
    ensures VisitedSet(p.size, visited) == old(VisitedSet(p.size, visited)) + SetOf(cells)
    ensures forall c :: c in cells ==> c !in old(VisitedSet(p.size, visited))
    ensures IsRegion(p, cells) && cells[0] == (i, j)
  {
    ghost var v0 := VisitedSet(p.size, visited);
    ghost var t := p.TypeOf(i, j);
    MarkCell(p.size, visited, (i, j));
    var queue: seq<Cell> := [(i, j)];
    cells := [];
    assert SetOf(cells + queue) == {(i, j)};
    while |queue| > 0
      invariant FillState(p, VisitedSet(p.size, visited), v0, t, (i, j), cells, queue)
      decreases AllCells(p.size) - VisitedSet(p.size, visited), |queue|
    {
      cells, queue := FillStep(p, visited, v0, t, (i, j), cells, queue);
    }
    assert cells + queue == cells;
    FillClosed(p, v0, t, cells, VisitedSet(p.size, visited));
  }

  /**
   * The state of the fill loop from (i, j): the dequeued cells followed by
   * the queued ones form a fill, and every same-typed neighbour of a
   * dequeued cell is marked.
   */
  ghost predicate FillState(p: Puzzle, vis: set<Cell>, v0: set<Cell>, t: int, start: Cell, cells: seq<Cell>, queue: seq<Cell>)
    reads p.board
    requires p.Valid()
  {
    |cells + queue| > 0 && (cells + queue)[0] == start &&
    FillOk(p, vis, v0, t, cells + queue) && Expanded(p, t, cells, vis)
  }

  /** One iteration of the fill loop: dequeue a cell and mark its fresh same-typed neighbours. */
  method FillStep(p: Puzzle, visited: array2<bool>, ghost v0: set<Cell>, ghost t: int, ghost start: Cell,
                  cells: seq<Cell>, queue: seq<Cell>) returns (cells': seq<Cell>, queue': seq<Cell>)
    requires p.Valid() && visited.Length0 == p.size && visited.Length1 == p.size && |queue| > 0
    requires FillState(p, VisitedSet(p.size, visited), v0, t, start, cells, queue)
    modifies visited
    ensures FillState(p, VisitedSet(p.size, visited), v0, t, start, cells', queue')
    ensures old(VisitedSet(p.size, visited)) <= VisitedSet(p.size, visited) <= AllCells(p.size)
    ensures old(VisitedSet(p.size, visited)) < VisitedSet(p.size, visited) || |queue'| < |queue|
  {
    var x := queue[0];
    Shift(cells, queue);
    ghost var vis0 := VisitedSet(p.size, visited);
    cells' := cells + [x];
    var pushed := PushNeighbors(p, visited, v0, t, x, cells + queue, |cells|);
    ExpandedStep(p, t, cells, x, vis0, VisitedSet(p.size, visited));
    Assoc(cells', queue[1..], pushed);
    queue' := queue[1..] + pushed;
  }

  /** Every neighbour of type t of a cell of `cells` is in vis. */
  ghost predicate Expanded(p: Puzzle, t: int, cells: seq<Cell>, vis: set<Cell>)
    reads p.board
    requires p.Valid()
  {
    forall y, n :: y in cells && n in Neighbors(p.size, y.0, y.1) && p.TypeAt(n) == t ==> n in vis
  }

  lemma ExpandedStep(p: Puzzle, t: int, cells: seq<Cell>, x: Cell, vis: set<Cell>, vis': set<Cell>)
    requires p.Valid() && Expanded(p, t, cells, vis) && vis <= vis'
    requires forall n :: n in Neighbors(p.size, x.0, x.1) && p.TypeAt(n) == t ==> n in vis'
    ensures Expanded(p, t, cells + [x], vis')
  {
  }

  lemma Shift(cells: seq<Cell>, queue: seq<Cell>)
    requires |queue| > 0
    ensures cells + queue == (cells + [queue[0]]) + queue[1..]
    ensures ((cells + [queue[0]]) + queue[1..])[|cells|] == queue[0]
  {
    assert queue == [queue[0]] + queue[1..];
  }

  lemma Assoc(a: seq<Cell>, b: seq<Cell>, c: seq<Cell>)
    ensures a + b + c == a + (b + c)
  {
  }

  /**
   * When every same-typed neighbour of a filled cell is marked, the fill is
   * closed, and so is the whole marked set.
   */
  lemma FillClosed(p: Puzzle, v0: set<Cell>, t: int, cells: seq<Cell>, vis: set<Cell>)
    requires p.Valid() && ClosedSet(p, v0)
    requires FillOk(p, vis, v0, t, cells)
    requires forall y, n :: y in cells && n in Neighbors(p.size, y.0, y.1) && p.TypeAt(n) == t ==> n in vis
    ensures ClosedSet(p, vis) && RegionClosed(p, cells)
  {
    forall c, n | c in cells && n in Neighbors(p.size, c.0, c.1) && p.TypeAt(n) == p.TypeAt(c)
      ensures n in cells
    {
      if n in v0 {
        assert false;
      }
    }
  }

  /**
   * The invariant of the scan: the components found so far are regions of
   * the right kind, disjoint, and the visited set is exactly their cells.
   */
  ghost predicate ScanOk(p: Puzzle, v: set<Cell>, streams: seq<Component>, islands: seq<Component>)
    reads p.board
    requires p.Valid()
  {
    ClosedSet(p, v) &&
    (forall k :: 0 <= k < |streams| ==> IsStream(p, streams[k])) &&
    (forall k :: 0 <= k < |islands| ==> IsIsland(p, islands[k])) &&
    Disjoint(streams, islands) &&
    (forall c :: c in v <==> InStreams(streams, c) || InIslands(islands, c))
  }

  lemma ScanAddStream(p: Puzzle, v: set<Cell>, v': set<Cell>, streams: seq<Component>, islands: seq<Component>, s: Component)
    requires p.Valid() && ScanOk(p, v, streams, islands) && ClosedSet(p, v')
    requires IsStream(p, s) && v' == v + SetOf(s.cells) && forall c :: c in s.cells ==> c !in v
    ensures ScanOk(p, v', streams + [s], islands)
  {
    var ss := streams + [s];
    forall k1, k2, c | 0 <= k1 < k2 < |ss| && c in ss[k1].cells
      ensures c !in ss[k2].cells
    {
      if k2 == |streams| {
        assert c in streams[k1].cells;
        assert InStreams(streams, c);
      }
    }
    forall k1, k2, c | 0 <= k1 < |ss| && 0 <= k2 < |islands| && c in ss[k1].cells
      ensures c !in islands[k2].cells
    {
      if k1 == |streams| {
        assert c !in v;
        assert !InIslands(islands, c);
      }
    }
    forall c
      ensures c in v' <==> InStreams(ss, c) || InIslands(islands, c)
    {
      if c in s.cells {
        assert ss[|streams|] == s;
      }
      if InStreams(ss, c) {
        var k :| 0 <= k < |ss| && c in ss[k].cells;
        if k < |streams| {
          assert InStreams(streams, c);
        }
      }
      if InStreams(streams, c) {
        var k :| 0 <= k < |streams| && c in streams[k].cells;
        assert ss[k] == streams[k];
      }
    }
  }

  lemma ScanAddIsland(p: Puzzle, v: set<Cell>, v': set<Cell>, streams: seq<Component>, islands: seq<Component>, s: Component)
    requires p.Valid() && ScanOk(p, v, streams, islands) && ClosedSet(p, v')
    requires IsIsland(p, s) && v' == v + SetOf(s.cells) && forall c :: c in s.cells ==> c !in v
    ensures ScanOk(p, v', streams, islands + [s])
  {
    var isl := islands + [s];
    forall k1, k2, c | 0 <= k1 < k2 < |isl| && c in isl[k1].cells
      ensures c !in isl[k2].cells
    {
      if k2 == |islands| {
        assert c in islands[k1].cells;
        assert InIslands(islands, c);
      }
    }
    forall k1, k2, c | 0 <= k1 < |streams| && 0 <= k2 < |isl| && c in streams[k1].cells
      ensures c !in isl[k2].cells
    {
      if k2 == |islands| {
        assert InStreams(streams, c);
      }
    }
    forall c
      ensures c in v' <==> InStreams(streams, c) || InIslands(isl, c)
    {
      if c in s.cells {
        assert isl[|islands|] == s;
      }
      if InIslands(isl, c) {
        var k :| 0 <= k < |isl| && c in isl[k].cells;
        if k < |islands| {
          assert InIslands(islands, c);
        }
      }
      if InIslands(islands, c) {
        var k :| 0 <= k < |islands| && c in islands[k].cells;
        assert isl[k] == islands[k];
      }
    }
  }

  /** A cell from which the scan starts a component when it is not yet visited. */
  ghost predicate StartsComponent(p: Puzzle, c: Cell)
    reads p.board
    requires p.Valid()
  {
    InGrid(p.size, c) && (p.board[c.0, c.1] == BLACK || p.task[c.0][c.1] > 0)
  }

  lemma PrefixCovered(p: Puzzle, all: seq<Cell>, t: int, v: set<Cell>, v': set<Cell>)
    requires p.Valid() && 0 <= t < |all|
    requires forall m :: 0 <= m < t && StartsComponent(p, all[m]) ==> all[m] in v
    requires v <= v' && (StartsComponent(p, all[t]) ==> all[t] in v')
    ensures forall m :: 0 <= m < t + 1 && StartsComponent(p, all[m]) ==> all[m] in v'
  {
  }

  /**
   * The component fields of an extraction: a stream needs -1 cells, so its
   * size never equals its required size, and grows with BLACK; an island
   * needs the clue on its root and grows with DOT; each has at least its
   * root, whose reading is the component's type.
   */
  lemma ComponentFields(p: Puzzle, streams: seq<Component>, islands: seq<Component>)
    requires p.Valid() && IsExtraction(p, streams, islands)
    ensures forall k :: 0 <= k < |streams| ==>
      streams[k].Size() >= 1 && streams[k].RequiredSize() == -1 != streams[k].Size() &&
      streams[k].Type() == BLACK == p.TypeAt(streams[k].root)
    ensures forall k :: 0 <= k < |islands| ==>
      islands[k].Size() >= 1 && InGrid(p.size, islands[k].root) &&
      islands[k].RequiredSize() == p.task[islands[k].root.0][islands[k].root.1] > 0 &&
      islands[k].Type() == DOT == p.TypeAt(islands[k].root)
  {
    forall k | 0 <= k < |streams|
      ensures streams[k].Size() >= 1 && streams[k].RequiredSize() == -1 != streams[k].Size() &&
        streams[k].Type() == BLACK == p.TypeAt(streams[k].root)
    {
      assert IsStream(p, streams[k]);
    }
    forall k | 0 <= k < |islands|
      ensures islands[k].Size() >= 1 && InGrid(p.size, islands[k].root) &&
        islands[k].RequiredSize() == p.task[islands[k].root.0][islands[k].root.1] > 0 &&
        islands[k].Type() == DOT == p.TypeAt(islands[k].root)
    {
      assert IsIsland(p, islands[k]);
    }
  }

  /** Every cell of a stream reads BLACK and every cell of an island reads DOT. */
  lemma ComponentTypes(p: Puzzle, streams: seq<Component>, islands: seq<Component>)
    requires p.Valid()
    requires forall k :: 0 <= k < |streams| ==> IsStream(p, streams[k])
    requires forall k :: 0 <= k < |islands| ==> IsIsland(p, islands[k])
    ensures forall c :: InStreams(streams, c) ==> InGrid(p.size, c) && p.TypeAt(c) == BLACK
    ensures forall c :: InIslands(islands, c) ==> InGrid(p.size, c) && p.TypeAt(c) == DOT
  {
    forall c | InStreams(streams, c)
      ensures InGrid(p.size, c) && p.TypeAt(c) == BLACK
    {
      var k :| 0 <= k < |streams| && c in streams[k].cells;
      assert IsStream(p, streams[k]);
    }
    forall c | InIslands(islands, c)
      ensures InGrid(p.size, c) && p.TypeAt(c) == DOT
    {
      var k :| 0 <= k < |islands| && c in islands[k].cells;
      assert IsIsland(p, islands[k]);
    }
  }

  /**
   * One cell of the scan: an unvisited stored-BLACK cell starts a stream, an
   * unvisited clue cell starts an island whose required size is its clue;
   * any other cell starts nothing.
   */
  method ScanCell(p: Puzzle, visited: array2<bool>, c: Cell, streams: seq<Component>, islands: seq<Component>)
    returns (streams': seq<Component>, islands': seq<Component>)
    requires p.Valid() && visited.Length0 == p.size && visited.Length1 == p.size && InGrid(p.size, c)
    requires ScanOk(p, VisitedSet(p.size, visited), streams, islands)
    modifies visited
    ensures ScanOk(p, VisitedSet(p.size, visited), streams', islands')
    ensures old(VisitedSet(p.size, visited)) <= VisitedSet(p.size, visited)
    ensures StartsComponent(p, c) ==> c in VisitedSet(p.size, visited)
  {
    var (i, j) := c;
    ghost var v := VisitedSet(p.size, visited);
    streams', islands' := streams, islands;
    if visited[i, j] {
      return;
    }
    if p.board[i, j] == BLACK {
      var cells := FloodFill(p, visited, i, j);
      ScanAddStream(p, v, VisitedSet(p.size, visited), streams, islands, Stream((i, j), cells));
      streams' := streams + [Stream((i, j), cells)];
    } else if p.task[i][j] > 0 {
      var cells := FloodFill(p, visited, i, j);
      ScanAddIsland(p, v, VisitedSet(p.size, visited), streams, islands, Island((i, j), cells, p.task[i][j]));
      islands' := islands + [Island((i, j), cells, p.task[i][j])];
    }
  }

  /**
   * The scan over the board in row-major order: an unvisited stored-BLACK
   * cell starts a stream, an unvisited clue cell starts an island whose
   * required size is its clue; other cells start nothing.
   */
  method GetStreamsAndIslands(p: Puzzle) returns (streams: seq<Component>, islands: seq<Component>)
    requires p.Valid()
    ensures IsExtraction(p, streams, islands)
  {
    streams, islands := [], [];
    var visited := new bool[p.size, p.size]((_, _) => false);
    var all := BoardCells(p.size, 0);
    assert VisitedSet(p.size, visited) == {};
    for t := 0 to |all|
      invariant ScanOk(p, VisitedSet(p.size, visited), streams, islands)
      invariant forall m :: 0 <= m < t && StartsComponent(p, all[m]) ==> all[m] in VisitedSet(p.size, visited)
    {
      ghost var v := VisitedSet(p.size, visited);
      streams, islands := ScanCell(p, visited, all[t], streams, islands);
      PrefixCovered(p, all, t, v, VisitedSet(p.size, visited));
    }
    ScanDone(p, all, VisitedSet(p.size, visited), streams, islands);
  }

  /** Once every cell has been scanned, every BLACK and every clue cell lies in a component. */
  lemma ScanDone(p: Puzzle, all: seq<Cell>, v: set<Cell>, streams: seq<Component>, islands: seq<Component>)
    requires p.Valid() && all == BoardCells(p.size, 0) && ScanOk(p, v, streams, islands)
    requires forall m :: 0 <= m < |all| && StartsComponent(p, all[m]) ==> all[m] in v
    ensures IsExtraction(p, streams, islands)
  {
    ComponentTypes(p, streams, islands);
    forall c | InGrid(p.size, c) && (p.TypeAt(c) == BLACK || p.task[c.0][c.1] > 0)
      ensures InStreams(streams, c) || InIslands(islands, c)
    {
      assert c in all;
      var m :| 0 <= m < |all| && all[m] == c;
    }
  }
}
