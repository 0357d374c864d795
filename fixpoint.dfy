/**
 * The solver's driver: one pass extracts the components and runs the five
 * rules on the same board; the updates are then written in list order,
 * and passes repeat until one yields nothing.
 */
module Fixpoint {
  import opened Grid
  import opened Board
  import opened Regions
  import opened Exits
  import opened ExitRules
  import opened Corner
  import opened Unreachable
  import opened BetweenIslands

  /** The value cell c holds after writing `updates` in order over v: the last write to c wins. */
  function Applied(updates: seq<Update>, c: Cell, v: int): int
    decreases |updates|
  {
    if |updates| == 0 then v
    else
      var u := updates[|updates| - 1];
      if u.Target() == c then u.value else Applied(updates[..|updates| - 1], c, v)
  }

  /** A cell no update targets keeps its value. */
  lemma {:induction false} AppliedUntargeted(updates: seq<Update>, c: Cell, v: int)
    requires forall k :: 0 <= k < |updates| ==> updates[k].Target() != c
    ensures Applied(updates, c, v) == v
    decreases |updates|
  {
    if |updates| > 0 {
      AppliedUntargeted(updates[..|updates| - 1], c, v);
    }
  }

  /** A targeted cell holds the value of the last update that targets it. */
  lemma {:induction false} AppliedLast(updates: seq<Update>, c: Cell, v: int, k: int)
    requires 0 <= k < |updates| && updates[k].Target() == c
    requires forall m :: k < m < |updates| ==> updates[m].Target() != c
    ensures Applied(updates, c, v) == updates[k].value
    decreases |updates|
  {
    var n := |updates| - 1;
    if k < n {
      assert updates[..n][k] == updates[k];
      AppliedLast(updates[..n], c, v, k);
    }
  }

  /**
   * When every update of c writes a non-WHITE value, c ends non-WHITE if
   * it is targeted at all, and keeps v if it is not.
   */
  lemma {:induction false} AppliedCell(updates: seq<Update>, c: Cell, v: int)
    requires forall k :: 0 <= k < |updates| && updates[k].Target() == c ==> updates[k].value != WHITE
    ensures (forall k :: 0 <= k < |updates| ==> updates[k].Target() != c) ==> Applied(updates, c, v) == v
    ensures (exists k :: 0 <= k < |updates| && updates[k].Target() == c) ==> Applied(updates, c, v) != WHITE
    decreases |updates|
  {
    if |updates| > 0 {
      var n := |updates| - 1;
      var init := updates[..n];
      assert forall k :: 0 <= k < n ==> init[k] == updates[k];
      AppliedCell(init, c, v);
    }
  }

  /** Writing xs and then ys is writing ys over what xs left. */
  lemma {:induction false} AppliedConcat(xs: seq<Update>, ys: seq<Update>, c: Cell, v: int)
    ensures Applied(xs + ys, c, v) == Applied(ys, c, Applied(xs, c, v))
    decreases |ys|
  {
    if |ys| == 0 {
      assert xs + ys == xs;
    } else {
      var n := |ys| - 1;
      assert (xs + ys)[..|xs + ys| - 1] == xs + ys[..n];
      AppliedConcat(xs, ys[..n], c, v);
    }
  }

  /** When some update targets c and all of them write w there, c ends with w. */
  lemma {:induction false} AppliedAgreed(updates: seq<Update>, c: Cell, v: int, w: int)
    requires exists k :: 0 <= k < |updates| && updates[k].Target() == c
    requires forall k :: 0 <= k < |updates| && updates[k].Target() == c ==> updates[k].value == w
    ensures Applied(updates, c, v) == w
    decreases |updates|
  {
    var n := |updates| - 1;
    if updates[n].Target() != c {
      var init := updates[..n];
      var k :| 0 <= k < |updates| && updates[k].Target() == c;
      assert init[k] == updates[k];
      assert forall m :: 0 <= m < n ==> init[m] == updates[m];
      AppliedAgreed(init, c, v, w);
    }
  }

  /** An update the rest of the puzzle allows: in the grid, a cell value, and no BLACK over a clue. */
  ghost predicate Writable(p: Puzzle, u: Update)
    requires |p.task| == p.size && forall r :: 0 <= r < p.size ==> |p.task[r]| == p.size
  {
    InGrid(p.size, u.Target()) && 0 <= u.value <= 2 && (p.task[u.i][u.j] > 0 ==> u.value != BLACK)
  }

  /** Writes one update into the board: only that cell changes. */
  method Write(p: Puzzle, u: Update)
    requires p.Valid() && Writable(p, u)
    modifies p.board
    ensures p.Valid()
    ensures forall a, b :: 0 <= a < p.size && 0 <= b < p.size ==>
      p.board[a, b] == if (a, b) == u.Target() then u.value else old(p.board[a, b])
  {
    p.board[u.i, u.j] := u.value;
  }

  /** Writes the updates in list order, as the pass does: each cell ends with its last writer's value. */
  method ApplyUpdates(p: Puzzle, updates: seq<Update>)
    requires p.Valid() && forall u :: u in updates ==> Writable(p, u)
    modifies p.board
    ensures p.Valid()
    ensures forall a, b :: 0 <= a < p.size && 0 <= b < p.size ==>
      p.board[a, b] == Applied(updates, (a, b), old(p.board[a, b]))
  {
    for k := 0 to |updates|
      invariant p.Valid()
      invariant forall a, b :: 0 <= a < p.size && 0 <= b < p.size ==>
        p.board[a, b] == Applied(updates[..k], (a, b), old(p.board[a, b]))
    {
      assert updates[..k + 1][..k] == updates[..k];
      Write(p, updates[k]);
    }
    assert updates[..|updates|] == updates;
  }

  /** The stored values of the whole grid, taken as a value. */
  ghost function Snapshot(p: Puzzle): (m: map<Cell, int>)
    reads p.board
    requires p.Valid()
    ensures forall c :: c in m <==> InGrid(p.size, c)
    ensures forall c :: InGrid(p.size, c) ==> c in m && m[c] == p.board[c.0, c.1]
  {
    map c | c in AllCells(p.size) :: p.board[c.0, c.1]
  }

  /** The grid values m becomes once `updates` are written over it in order. */
  ghost function Written(m: map<Cell, int>, updates: seq<Update>): map<Cell, int>
  {
    map c | c in m :: Applied(updates, c, m[c])
  }

  /** u decides an undecided cell of the stored values m: a WHITE non-clue cell becomes BLACK or DOT. */
  ghost predicate Decides(p: Puzzle, m: map<Cell, int>, u: Update)
    requires |p.task| == p.size && forall r :: 0 <= r < p.size ==> |p.task[r]| == p.size
  {
    InGrid(p.size, u.Target()) && u.Target() in m && m[u.Target()] == WHITE &&
    p.task[u.i][u.j] == 0 && (u.value == BLACK || u.value == DOT)
  }

  /** u is produced by one of the five rules on this extraction. */
  ghost predicate Fires(p: Puzzle, streams: seq<Component>, islands: seq<Component>, u: Update)
    reads p.board
    requires p.Valid()
  {
    u in ForcedExits(p, streams) || u in ForcedExits(p, islands) ||
    Covers(p, islands, |islands|, u) ||
    CornerFires(p, u) || UnreachableFires(p, islands, u) ||
    BetweenHit(p, islands, u)
  }

  /** The fixpoint's end state: no rule yields anything. */
  ghost predicate Quiescent(p: Puzzle, streams: seq<Component>, islands: seq<Component>)
    reads p.board
    requires p.Valid()
  {
    forall u :: !Fires(p, streams, islands, u)
  }

  /** A board on which no extraction lets any rule fire. */
  ghost predicate Converged(p: Puzzle)
    reads p.board
    requires p.Valid()
  {
    forall streams, islands :: IsExtraction(p, streams, islands) ==> Quiescent(p, streams, islands)
  }

  /**
   * At the fixpoint a component short of its required size never has
   * exactly one exit: ComponentExit would otherwise still fire. (A
   * stream's required size is -1, so this holds for every stream.)
   */
  lemma SettledExits(p: Puzzle, streams: seq<Component>, islands: seq<Component>, comp: Component)
    requires p.Valid() && Quiescent(p, streams, islands)
    requires comp in streams || comp in islands
    ensures comp.RequiredSize() != comp.Size() ==> |ExitSet(p, comp.cells)| != 1
  {
    ExitFires(p, streams, islands, comp);
  }

  /** A component ComponentExit fires on yields an update some rule fires. */
  lemma ExitFires(p: Puzzle, streams: seq<Component>, islands: seq<Component>, comp: Component)
    requires p.Valid() && (comp in streams || comp in islands)
    ensures ExitForced(p, comp) ==> exists u :: Fires(p, streams, islands, u)
  {
    if ExitForced(p, comp) {
      var e := TheExit(p, comp);
      assert e in ExitSet(p, comp.cells);
      var u := Update(e.0, e.1, comp.Type());
      ForcedExitsMembers(p, streams);
      ForcedExitsMembers(p, islands);
      if comp in streams {
        var k :| 0 <= k < |streams| && streams[k] == comp;
        assert u in ForcedExits(p, streams);
      } else {
        var k :| 0 <= k < |islands| && islands[k] == comp;
        assert u in ForcedExits(p, islands);
      }
      assert Fires(p, streams, islands, u);
    }
  }

  /** At the fixpoint a complete island has no exit left: CoverIsland has sealed it. */
  lemma SettledIslandsSealed(p: Puzzle, streams: seq<Component>, islands: seq<Component>, k: int, c: Cell)
    requires p.Valid() && Quiescent(p, streams, islands) && 0 <= k < |islands| && Complete(islands[k])
    ensures !IsExit(p, islands[k].cells, c)
  {
    CoverWitness(p, islands, k, c);
    assert !Fires(p, streams, islands, Update(c.0, c.1, BLACK));
  }

  /** An exit of a complete island is covered. */
  lemma CoverWitness(p: Puzzle, islands: seq<Component>, k: int, c: Cell)
    requires p.Valid() && 0 <= k < |islands| && Complete(islands[k])
    ensures IsExit(p, islands[k].cells, c) ==> Covers(p, islands, |islands|, Update(c.0, c.1, BLACK))
  {
    assert Update(c.0, c.1, BLACK).Target() == c;
  }

  /** At the fixpoint no 2-by-2 block has three BLACK cells and a WHITE one. */
  lemma SettledNoCorner(p: Puzzle, streams: seq<Component>, islands: seq<Component>, i: int, j: int, c: Cell)
    requires p.Valid() && Quiescent(p, streams, islands)
    ensures !CornerForces(p, i, j, c)
  {
    CornerWitness(p, i, j, c);
    assert !Fires(p, streams, islands, Update(c.0, c.1, DOT));
  }

  /** A forced cell of a block is what CoverCorner emits. */
  lemma CornerWitness(p: Puzzle, i: int, j: int, c: Cell)
    requires p.Valid()
    ensures CornerForces(p, i, j, c) ==> CornerFires(p, Update(c.0, c.1, DOT))
  {
    assert Update(c.0, c.1, DOT).Target() == c;
  }

  /** At the fixpoint every WHITE cell is within reach of some island's remaining budget. */
  lemma SettledReachable(p: Puzzle, streams: seq<Component>, islands: seq<Component>, c: Cell)
    requires p.Valid() && Quiescent(p, streams, islands) && InGrid(p.size, c) && p.TypeAt(c) == WHITE
    ensures FromIslands(p.size, OpenCells(p), islands, |islands|, c)
  {
    assert !Fires(p, streams, islands, Update(c.0, c.1, BLACK));
  }

  /**
   * At the fixpoint, between two cells of two different islands at
   * distance 2 every cell reads BLACK.
   */
  lemma SettledSeparated(p: Puzzle, streams: seq<Component>, islands: seq<Component>, x: int, y: int, c1: Cell, c2: Cell, b: Cell)
    requires p.Valid() && Quiescent(p, streams, islands) && 0 <= x < y < |islands|
    requires c1 in islands[x].cells && c2 in islands[y].cells && Distance(c1, c2) == 2 && b in Between(c1, c2)
    requires InGrid(p.size, b)
    ensures p.TypeAt(b) == BLACK
  {
    BetweenWitness(p, islands, x, y, c1, c2, b);
    assert !Fires(p, streams, islands, Update(b.0, b.1, BLACK));
  }

  /** A non-BLACK cell between cells of two islands is what CoverBetweenIslands emits. */
  lemma BetweenWitness(p: Puzzle, islands: seq<Component>, x: int, y: int, c1: Cell, c2: Cell, b: Cell)
    requires p.Valid() && 0 <= x < y < |islands|
    requires c1 in islands[x].cells && c2 in islands[y].cells && Distance(c1, c2) == 2 && b in Between(c1, c2)
    requires InGrid(p.size, b)
    ensures p.TypeAt(b) != BLACK ==> BetweenHit(p, islands, Update(b.0, b.1, BLACK))
  {
    var u := Update(b.0, b.1, BLACK);
    assert u.Target() == b;
    if p.TypeAt(b) != BLACK {
      assert PairHits(p, c1, c2, u);
      assert IslandsHit(p, islands[x].cells, islands[y].cells, u);
    }
  }

  /** An exit update of ComponentExit stores BLACK or DOT into a WHITE cell. */
  lemma ForcedTargetsWhite(p: Puzzle, cs: seq<Component>, u: Update)
    requires p.Valid() && u in ForcedExits(p, cs)
    ensures InGrid(p.size, u.Target()) && p.TypeAt(u.Target()) == WHITE && (u.value == BLACK || u.value == DOT)
  {
    ForcedExitsMembers(p, cs);
  }

  /**
   * Every update of a pass stores BLACK or DOT into a cell that reads
   * WHITE: the rules look only at exits, at a block's WHITE cell, at WHITE
   * cells no island reaches and, for the separation rule, at cells which
   * the extraction's maximality shows to be WHITE.
   */
  lemma FiresTargetsWhite(p: Puzzle, streams: seq<Component>, islands: seq<Component>, u: Update)
    requires p.Valid() && IsExtraction(p, streams, islands) && Fires(p, streams, islands, u)
    ensures InGrid(p.size, u.Target()) && p.TypeAt(u.Target()) == WHITE && (u.value == BLACK || u.value == DOT)
  {
    if u in ForcedExits(p, streams) {
      ForcedTargetsWhite(p, streams, u);
    } else if u in ForcedExits(p, islands) {
      ForcedTargetsWhite(p, islands, u);
    } else if Covers(p, islands, |islands|, u) {
      CoversTargetsWhite(p, islands, u);
    } else if CornerFires(p, u) {
      CornerTargetsWhite(p, u);
    } else if BetweenHit(p, islands, u) {
      BetweenTargetsWhite(p, streams, islands, u);
    }
  }

  lemma CoversTargetsWhite(p: Puzzle, islands: seq<Component>, u: Update)
    requires p.Valid() && Covers(p, islands, |islands|, u)
    ensures InGrid(p.size, u.Target()) && p.TypeAt(u.Target()) == WHITE && u.value == BLACK
  {
    var k :| 0 <= k < |islands| && Complete(islands[k]) && IsExit(p, islands[k].cells, u.Target());
  }

  lemma CornerTargetsWhite(p: Puzzle, u: Update)
    requires p.Valid() && CornerFires(p, u)
    ensures InGrid(p.size, u.Target()) && p.TypeAt(u.Target()) == WHITE
  {
    var i, j :| CornerForces(p, i, j, u.Target());
  }

  /** Every island's cells lie in the grid. */
  lemma IslandsInGrid(p: Puzzle, streams: seq<Component>, islands: seq<Component>)
    requires p.Valid() && IsExtraction(p, streams, islands)
    ensures forall k :: 0 <= k < |islands| ==> AllInGrid(p.size, islands[k].cells)
  {
    forall k | 0 <= k < |islands|
      ensures AllInGrid(p.size, islands[k].cells)
    {
      assert IsIsland(p, islands[k]);
    }
  }

  /**
   * The updates split at i1 <= .. <= i5 into the six rule outputs in the
   * order the pass concatenates them: ComponentExit on the streams, on the
   * islands, CoverIsland, CoverCorner, CoverUnreachables and
   * CoverBetweenIslands.
   */
  ghost predicate Sections(p: Puzzle, streams: seq<Component>, islands: seq<Component>, updates: seq<Update>,
                           i1: int, i2: int, i3: int, i4: int, i5: int)
    reads p.board
    requires p.Valid()
  {
    0 <= i1 <= i2 <= i3 <= i4 <= i5 <= |updates| &&
    updates[..i1] == ForcedExits(p, streams) && updates[i1..i2] == ForcedExits(p, islands) &&
    (forall u :: u in updates[i2..i3] <==> Covers(p, islands, |islands|, u)) &&
    (forall u :: u in updates[i3..i4] <==> CornerFires(p, u)) &&
    (forall u :: u in updates[i4..i5] <==> UnreachableFires(p, islands, u)) &&
    (forall u :: u in updates[i5..] <==> BetweenHit(p, islands, u))
  }

  /** The updates are the six rule outputs concatenated in the pass's order. */
  ghost predicate RuleOrder(p: Puzzle, streams: seq<Component>, islands: seq<Component>, updates: seq<Update>)
    reads p.board
    requires p.Valid()
  {
    exists i1, i2, i3, i4, i5 :: Sections(p, streams, islands, updates, i1, i2, i3, i4, i5)
  }

  /** Sectioned updates are exactly the updates some rule fires. */
  lemma SectionsFire(p: Puzzle, streams: seq<Component>, islands: seq<Component>, updates: seq<Update>)
    requires p.Valid() && RuleOrder(p, streams, islands, updates)
    ensures forall u :: u in updates <==> Fires(p, streams, islands, u)
  {
    var i1, i2, i3, i4, i5 :| Sections(p, streams, islands, updates, i1, i2, i3, i4, i5);
    assert updates == updates[..i1] + updates[i1..i2] + updates[i2..i3] + updates[i3..i4] + updates[i4..i5] + updates[i5..];
    PassFires(p, streams, islands, updates[..i1], updates[i1..i2], updates[i2..i3], updates[i3..i4], updates[i4..i5], updates[i5..]);
  }

  /**
   * The separation rule comes last, so where it writes BLACK no earlier
   * rule's value survives: a cell that CoverBetweenIslands targets ends
   * BLACK even when ComponentExit proposed DOT for it in the same pass.
   */
  lemma BetweenWins(p: Puzzle, streams: seq<Component>, islands: seq<Component>, updates: seq<Update>, c: Cell, v: int)
    requires p.Valid() && RuleOrder(p, streams, islands, updates)
    requires BetweenHit(p, islands, Update(c.0, c.1, BLACK))
    ensures Applied(updates, c, v) == BLACK
  {
    var i1, i2, i3, i4, i5 :| Sections(p, streams, islands, updates, i1, i2, i3, i4, i5);
    var between := updates[i5..];
    assert Update(c.0, c.1, BLACK) in between;
    forall u | u in between
      ensures u.value == BLACK
    {
      var x, y :| 0 <= x < y < |islands| && IslandsHit(p, islands[x].cells, islands[y].cells, u);
    }
    assert updates[..i5] + between == updates;
    LaterListWins(updates[..i5], between, c, v, BLACK);
  }

  /** A cell that a later list targets, always with w, ends with w whatever the earlier list wrote. */
  lemma LaterListWins(xs: seq<Update>, ys: seq<Update>, c: Cell, v: int, w: int)
    requires exists u :: u in ys && u.Target() == c
    requires forall u :: u in ys && u.Target() == c ==> u.value == w
    ensures Applied(xs + ys, c, v) == w
  {
    AppliedConcat(xs, ys, c, v);
    var u :| u in ys && u.Target() == c;
    var k :| 0 <= k < |ys| && ys[k] == u;
    assert forall m :: 0 <= m < |ys| ==> ys[m] in ys;
    AppliedAgreed(ys, c, Applied(xs, c, v), w);
  }

  /**
   * One pass: extract the components, then concatenate what ComponentExit
   * yields on the streams and on the islands, CoverIsland, CoverCorner,
   * CoverUnreachables and CoverBetweenIslands, all on the same board.
   */
  method Pass(p: Puzzle) returns (streams: seq<Component>, islands: seq<Component>, updates: seq<Update>)
    requires p.Valid()
    ensures IsExtraction(p, streams, islands) && RuleOrder(p, streams, islands, updates)
    ensures forall u :: u in updates <==> Fires(p, streams, islands, u)
  {
    streams, islands := GetStreamsAndIslands(p);
    IslandsInGrid(p, streams, islands);
    var fromStreams := ComponentExit(p, streams);
    var fromIslands := ComponentExit(p, islands);
    var covered := CoverIsland(p, islands);
    var corners := CoverCorner(p);
    var unreachable := CoverUnreachables(p, islands);
    var between := CoverBetweenIslands(p, islands);
    updates := fromStreams + fromIslands + covered + corners + unreachable + between;
    PassSections(p, streams, islands, fromStreams, fromIslands, covered, corners, unreachable, between);
    PassFires(p, streams, islands, fromStreams, fromIslands, covered, corners, unreachable, between);
  }

  /** The concatenated rule outputs are sectioned in the pass's order. */
  lemma PassSections(p: Puzzle, streams: seq<Component>, islands: seq<Component>,
                     fromStreams: seq<Update>, fromIslands: seq<Update>, covered: seq<Update>,
                     corners: seq<Update>, unreachable: seq<Update>, between: seq<Update>)
    requires p.Valid()
    requires fromStreams == ForcedExits(p, streams) && fromIslands == ForcedExits(p, islands)
    requires forall u :: u in covered <==> Covers(p, islands, |islands|, u)
    requires forall u :: u in corners <==> CornerFires(p, u)
    requires forall u :: u in unreachable <==> UnreachableFires(p, islands, u)
    requires forall u :: u in between <==> BetweenHit(p, islands, u)
    ensures RuleOrder(p, streams, islands, fromStreams + fromIslands + covered + corners + unreachable + between)
  {
    var updates := fromStreams + fromIslands + covered + corners + unreachable + between;
    var i1 := |fromStreams|;
    var i2 := i1 + |fromIslands|;
    var i3 := i2 + |covered|;
    var i4 := i3 + |corners|;
    var i5 := i4 + |unreachable|;
    Slices(fromStreams, fromIslands, covered, corners, unreachable, between);
    assert updates[i2..i3] == covered && updates[i3..i4] == corners;
    assert updates[i4..i5] == unreachable && updates[i5..] == between;
    assert Sections(p, streams, islands, updates, i1, i2, i3, i4, i5);
  }

  /** Slicing a concatenation of six lists at their running lengths gives them back. */
  lemma Slices<T>(a: seq<T>, b: seq<T>, c: seq<T>, d: seq<T>, e: seq<T>, f: seq<T>)
    ensures var s := a + b + c + d + e + f;
      var i1 := |a|; var i2 := i1 + |b|; var i3 := i2 + |c|; var i4 := i3 + |d|; var i5 := i4 + |e|;
      s[..i1] == a && s[i1..i2] == b && s[i2..i3] == c && s[i3..i4] == d && s[i4..i5] == e && s[i5..] == f
  {
  }

  /** The concatenated rule outputs are exactly the updates some rule fires. */
  lemma PassFires(p: Puzzle, streams: seq<Component>, islands: seq<Component>,
                  fromStreams: seq<Update>, fromIslands: seq<Update>, covered: seq<Update>,
                  corners: seq<Update>, unreachable: seq<Update>, between: seq<Update>)
    requires p.Valid()
    requires fromStreams == ForcedExits(p, streams) && fromIslands == ForcedExits(p, islands)
    requires forall u :: u in covered <==> Covers(p, islands, |islands|, u)
    requires forall u :: u in corners <==> CornerFires(p, u)
    requires forall u :: u in unreachable <==> UnreachableFires(p, islands, u)
    requires forall u :: u in between <==> BetweenHit(p, islands, u)
    ensures forall u :: u in fromStreams + fromIslands + covered + corners + unreachable + between <==> Fires(p, streams, islands, u)
  {
  }

  /** The updates of a pass may be written, each over a WHITE cell with a value other than WHITE. */
  lemma PassWritable(p: Puzzle, streams: seq<Component>, islands: seq<Component>, updates: seq<Update>)
    requires p.Valid() && IsExtraction(p, streams, islands)
    requires forall u :: u in updates <==> Fires(p, streams, islands, u)
    ensures forall u :: u in updates ==> Writable(p, u)
    ensures forall k :: 0 <= k < |updates| ==>
      InGrid(p.size, updates[k].Target()) && p.TypeAt(updates[k].Target()) == WHITE && updates[k].value != WHITE
  {
    forall u | u in updates
      ensures Writable(p, u) && p.TypeAt(u.Target()) == WHITE && u.value != WHITE
    {
      FiresTargetsWhite(p, streams, islands, u);
    }
  }

  /** Cells that did not read WHITE in the old state hold their old values. */
  twostate predicate KeepsDecided(p: Puzzle)
    reads p.board
    requires old(p.Valid())
  {
    forall a, b :: 0 <= a < p.size && 0 <= b < p.size && old(p.TypeOf(a, b)) != WHITE ==>
      p.board[a, b] == old(p.board[a, b])
  }

  /**
   * One iteration of the fixpoint loop: a pass, and its updates written in
   * list order unless there are none. The updates are the six rule outputs
   * on the board as it was, concatenated in the pass's order, and each
   * decides a WHITE cell; the new board is what writing them leaves. An
   * empty pass leaves a quiescent extraction; a non-empty one shows the
   * board was not converged and turns at least one WHITE cell.
   */
  method Step(p: Puzzle) returns (streams: seq<Component>, islands: seq<Component>, updates: seq<Update>, done: bool)
    requires p.Valid()
    modifies p.board
    ensures p.Valid()
    ensures old(IsExtraction(p, streams, islands)) && old(RuleOrder(p, streams, islands, updates))
    ensures forall u :: u in updates <==> old(Fires(p, streams, islands, u))
    ensures forall u :: u in updates ==> Decides(p, old(Snapshot(p)), u)
    ensures Snapshot(p) == Written(old(Snapshot(p)), updates)
    ensures done <==> |updates| == 0
    ensures done ==> IsExtraction(p, streams, islands) && Quiescent(p, streams, islands) && unchanged(p.board)
    ensures !done ==> !old(Converged(p)) && p.WhiteCells() < old(p.WhiteCells())
    ensures KeepsDecided(p)
  {
    streams, islands, updates := Pass(p);
    ghost var before := Snapshot(p);
    PassDecides(p, streams, islands, updates, before);
    done := |updates| == 0;
    if !done {
      assert updates[0] in updates;
      NotConverged(p, streams, islands, updates[0]);
      Commit(p, streams, islands, updates);
    }
    WrittenSnapshot(before, Snapshot(p), p.size, updates);
  }

  /** Every update of a pass decides a cell of the board it was computed on. */
  lemma PassDecides(p: Puzzle, streams: seq<Component>, islands: seq<Component>, updates: seq<Update>, m: map<Cell, int>)
    requires p.Valid() && IsExtraction(p, streams, islands) && m == Snapshot(p)
    requires forall u :: u in updates <==> Fires(p, streams, islands, u)
    ensures forall u :: u in updates ==> Decides(p, m, u)
  {
    forall u | u in updates
      ensures Decides(p, m, u)
    {
      FiresTargetsWhite(p, streams, islands, u);
    }
  }

  /** Grid values that follow `updates` cell by cell are the written grid. */
  lemma WrittenSnapshot(m: map<Cell, int>, m': map<Cell, int>, size: nat, updates: seq<Update>)
    requires forall c :: c in m <==> InGrid(size, c)
    requires forall c :: c in m' <==> InGrid(size, c)
    requires forall c :: c in m' ==> m'[c] == Applied(updates, c, m[c])
    ensures m' == Written(m, updates)
  {
  }

  /** Writes a non-empty pass in list order: at least one WHITE cell is decided, and no other cell changes. */
  method Commit(p: Puzzle, streams: seq<Component>, islands: seq<Component>, updates: seq<Update>)
    requires p.Valid() && IsExtraction(p, streams, islands) && |updates| > 0
    requires forall u :: u in updates <==> Fires(p, streams, islands, u)
    modifies p.board
    ensures p.Valid() && p.WhiteCells() < old(p.WhiteCells())
    ensures forall a, b :: 0 <= a < p.size && 0 <= b < p.size ==>
      p.board[a, b] == Applied(updates, (a, b), old(p.board[a, b]))
    ensures KeepsDecided(p)
  {
    PassWritable(p, streams, islands, updates);
    ApplyUpdates(p, updates);
    forall a, b | 0 <= a < p.size && 0 <= b < p.size
      ensures old(p.TypeOf(a, b)) != WHITE ==> p.board[a, b] == old(p.board[a, b])
      ensures p.TypeOf(a, b) == WHITE ==> old(p.TypeOf(a, b)) == WHITE
    {
      AppliedCell(updates, (a, b), old(p.board[a, b]));
    }
    var c := updates[0].Target();
    AppliedCell(updates, c, old(p.board[c.0, c.1]));
    assert c in old(p.WhiteCells()) && c !in p.WhiteCells();
  }

  /** A board on which some rule fires is not converged. */
  lemma NotConverged(p: Puzzle, streams: seq<Component>, islands: seq<Component>, u: Update)
    requires p.Valid() && IsExtraction(p, streams, islands) && Fires(p, streams, islands, u)
    ensures !Converged(p)
  {
  }

  /**
   * A run of passes over the grid values boards[0]: pass k writes the
   * non-empty list passes[k] over boards[k] in order, giving boards[k + 1],
   * and each of its updates decides a cell still WHITE in boards[k].
   */
  ghost predicate IsTrace(p: Puzzle, boards: seq<map<Cell, int>>, passes: seq<seq<Update>>)
    requires |p.task| == p.size && forall r :: 0 <= r < p.size ==> |p.task[r]| == p.size
  {
    |boards| == |passes| + 1 &&
    forall k :: 0 <= k < |passes| ==>
      passes[k] != [] && boards[k + 1] == Written(boards[k], passes[k]) &&
      forall u :: u in passes[k] ==> Decides(p, boards[k], u)
  }

  /** The trace's last board is the current one. */
  ghost predicate EndsAt(p: Puzzle, boards: seq<map<Cell, int>>, passes: seq<seq<Update>>)
    reads p.board
    requires p.Valid() && |boards| == |passes| + 1
  {
    boards[|passes|] == Snapshot(p)
  }

  /**
   * Along a trace a cell that is decided on the first board (a clue, or a
   * value other than WHITE) keeps its value to the last board: every pass
   * only decides cells that are WHITE before it.
   */
  lemma {:induction false} TraceKeepsDecided(p: Puzzle, boards: seq<map<Cell, int>>, passes: seq<seq<Update>>, n: nat, c: Cell)
    requires |p.task| == p.size && forall r :: 0 <= r < p.size ==> |p.task[r]| == p.size
    requires IsTrace(p, boards, passes) && n <= |passes| && c in boards[0]
    requires boards[0][c] != WHITE || (InGrid(p.size, c) && p.task[c.0][c.1] > 0)
    ensures c in boards[n] && boards[n][c] == boards[0][c]
    decreases n
  {
    if n > 0 {
      TraceKeepsDecided(p, boards, passes, n - 1, c);
      var m := boards[n - 1];
      var us := passes[n - 1];
      forall k | 0 <= k < |us|
        ensures us[k].Target() != c
      {
        assert us[k] in us;
      }
      AppliedUntargeted(us, c, m[c]);
    }
  }

  /**
   * The fixpoint loop: passes until one yields no update. It ends with an
   * extraction on which no rule fires, changes only cells that read WHITE
   * on entry, and leaves a converged board as it is. The ghost trace gives
   * the board after every pass: each pass writes, in order, the updates
   * the rules yield on the board before it (Step states this one pass at a
   * time). It terminates because every non-empty pass turns at least one
   * WHITE cell.
   */
  method ApplyStrategies(p: Puzzle) returns (streams: seq<Component>, islands: seq<Component>,
                                             ghost boards: seq<map<Cell, int>>, ghost passes: seq<seq<Update>>)
    requires p.Valid()
    modifies p.board
    ensures p.Valid() && IsExtraction(p, streams, islands) && Quiescent(p, streams, islands)
    ensures KeepsDecided(p)
    ensures old(Converged(p)) ==> unchanged(p.board) && passes == []
    ensures IsTrace(p, boards, passes) && boards[0] == old(Snapshot(p)) && EndsAt(p, boards, passes)
  {
    ghost var converged := Converged(p);
    boards, passes := [Snapshot(p)], [];
    while true
      invariant p.Valid() && KeepsDecided(p)
      invariant converged ==> unchanged(p.board) && passes == []
      invariant IsTrace(p, boards, passes) && boards[0] == old(Snapshot(p)) && EndsAt(p, boards, passes)
      decreases p.WhiteCells()
    {
      ghost var before := Snapshot(p);
      var updates, done;
      streams, islands, updates, done := Step(p);
      if done {
        break;
      }
      TraceExtend(p, boards, passes, before, Snapshot(p), updates);
      boards, passes := boards + [Snapshot(p)], passes + [updates];
    }
  }

  /** A trace grows by one non-empty pass that decides cells of its last board. */
  lemma TraceExtend(p: Puzzle, boards: seq<map<Cell, int>>, passes: seq<seq<Update>>,
                    before: map<Cell, int>, after: map<Cell, int>, updates: seq<Update>)
    requires |p.task| == p.size && forall r :: 0 <= r < p.size ==> |p.task[r]| == p.size
    requires IsTrace(p, boards, passes) && boards[|passes|] == before
    requires updates != [] && after == Written(before, updates)
    requires forall u :: u in updates ==> Decides(p, before, u)
    ensures IsTrace(p, boards + [after], passes + [updates])
  {
    var boards', passes' := boards + [after], passes + [updates];
    forall k | 0 <= k < |passes'|
      ensures passes'[k] != [] && boards'[k + 1] == Written(boards'[k], passes'[k]) &&
        forall u :: u in passes'[k] ==> Decides(p, boards'[k], u)
    {
      if k < |passes| {
        assert passes'[k] == passes[k] && boards'[k] == boards[k] && boards'[k + 1] == boards[k + 1];
      }
    }
  }
}
