/**
 * The two rules that look at a component's exits: a component short of its
 * size with a single exit must grow through it (ComponentExit), and a
 * complete island is walled in (CoverIsland).
 */
module ExitRules {
  import opened Grid
  import opened Board
  import opened Regions
  import opened Exits

  /**
   * ComponentExit's condition: exactly one exit and a size other than the
   * required one. A stream's required size is -1, so for a stream only the
   * exit count matters.
   */
  ghost predicate ExitForced(p: Puzzle, comp: Component)
    reads p.board
    requires p.Valid()
  {
    |ExitSet(p, comp.cells)| == 1 && comp.RequiredSize() != comp.Size()
  }

  /** The single exit of a component ComponentExit fires on. */
  ghost function TheExit(p: Puzzle, comp: Component): (e: Cell)
    reads p.board
    requires p.Valid() && ExitForced(p, comp)
    ensures ExitSet(p, comp.cells) == {e}
  {
    assert ExitSet(p, comp.cells) != {};
    var e :| e in ExitSet(p, comp.cells);
    forall x | x in ExitSet(p, comp.cells)
      ensures x == e
    {
      SingletonUnique(ExitSet(p, comp.cells), x, e);
    }
    e
  }

  /** What ComponentExit contributes for one component. */
  ghost function ForcedAt(p: Puzzle, comp: Component): seq<Update>
    reads p.board
    requires p.Valid()
  {
    if ExitForced(p, comp) then [Update(TheExit(p, comp).0, TheExit(p, comp).1, comp.Type())] else []
  }

  /** ComponentExit's result, component by component in list order. */
  ghost function ForcedExits(p: Puzzle, cs: seq<Component>): seq<Update>
    reads p.board
    requires p.Valid()
    decreases |cs|
  {
    if |cs| == 0 then [] else ForcedExits(p, cs[..|cs| - 1]) + ForcedAt(p, cs[|cs| - 1])
  }

  /**
   * ComponentExit emits at most one update per component, and an update is
   * emitted exactly when it stores a forced component's type into that
   * component's exit.
   */
  lemma {:induction false} ForcedExitsMembers(p: Puzzle, cs: seq<Component>)
    requires p.Valid()
    ensures |ForcedExits(p, cs)| <= |cs|
    ensures forall u :: u in ForcedExits(p, cs) <==>
      exists k :: 0 <= k < |cs| && ExitForced(p, cs[k]) && IsExit(p, cs[k].cells, u.Target()) && u.value == cs[k].Type()
  {
    if |cs| > 0 {
      var init, last := cs[..|cs| - 1], cs[|cs| - 1];
      ForcedExitsMembers(p, init);
      forall u
        ensures u in ForcedExits(p, cs) <==>
          exists k :: 0 <= k < |cs| && ExitForced(p, cs[k]) && IsExit(p, cs[k].cells, u.Target()) && u.value == cs[k].Type()
      {
        if u in ForcedExits(p, cs) && u !in ForcedExits(p, init) {
          assert u in ForcedAt(p, last);
          assert cs[|cs| - 1] == last;
        }
        if exists k :: 0 <= k < |cs| && ExitForced(p, cs[k]) && IsExit(p, cs[k].cells, u.Target()) && u.value == cs[k].Type() {
          var k :| 0 <= k < |cs| && ExitForced(p, cs[k]) && IsExit(p, cs[k].cells, u.Target()) && u.value == cs[k].Type();
          if k < |cs| - 1 {
            assert cs[k] == init[k];
          } else {
            assert u.Target() == TheExit(p, last);
            assert u == ForcedAt(p, last)[0];
          }
        }
      }
    }
  }

  /**
   * For each component in turn: if it has exactly one exit and is not of
   * its required size, emit that exit with the component's type.
   */
  method ComponentExit(p: Puzzle, components: seq<Component>) returns (updates: seq<Update>)
    requires p.Valid()
    ensures updates == ForcedExits(p, components)
  {
    updates := [];
    for k := 0 to |components|
      invariant updates == ForcedExits(p, components[..k])
    {
      var component := components[k];
      var exits := GetExits(p, component.cells);
      ForcedStep(p, components, k, exits);
      if component.RequiredSize() != component.Size() && |exits| == 1 {
        var (i, j) := exits[0];
        updates := updates + [Update(i, j, component.Type())];
      }
    }
    assert components[..|components|] == components;
  }

  /** One component's step: with its exits listed, ComponentExit's test decides its contribution. */
  lemma ForcedStep(p: Puzzle, cs: seq<Component>, k: int, exits: seq<Cell>)
    requires p.Valid() && 0 <= k < |cs|
    requires (forall c :: c in exits <==> IsExit(p, cs[k].cells, c)) && |exits| == |ExitSet(p, cs[k].cells)|
    ensures ForcedExits(p, cs[..k + 1]) == ForcedExits(p, cs[..k]) +
      (if cs[k].RequiredSize() != cs[k].Size() && |exits| == 1 then [Update(exits[0].0, exits[0].1, cs[k].Type())] else [])
  {
    assert cs[..k + 1][..k] == cs[..k];
    if cs[k].RequiredSize() != cs[k].Size() && |exits| == 1 {
      assert exits[0] in ExitSet(p, cs[k].cells);
      assert TheExit(p, cs[k]) == exits[0];
    }
  }

  /** An island that has reached its clue's size. */
  predicate Complete(isl: Component)
  {
    isl.RequiredSize() == isl.Size()
  }

  /** u is a BLACK update of an exit of one of the first n islands, that island being complete. */
  ghost predicate Covers(p: Puzzle, islands: seq<Component>, n: int, u: Update)
    reads p.board
    requires p.Valid() && n <= |islands|
  {
    u.value == BLACK && exists k :: 0 <= k < n && Complete(islands[k]) && IsExit(p, islands[k].cells, u.Target())
  }

  /**
   * Every exit of every complete island is emitted as BLACK, and nothing
   * else; exits shared by two complete islands are emitted once per island.
   */
  method CoverIsland(p: Puzzle, islands: seq<Component>) returns (updates: seq<Update>)
    requires p.Valid()
    ensures forall u :: u in updates <==> Covers(p, islands, |islands|, u)
  {
    updates := [];
    for k := 0 to |islands|
      invariant forall u :: u in updates <==> Covers(p, islands, k, u)
    {
      var island := islands[k];
      if island.RequiredSize() == island.Size() {
        var exits := GetExits(p, island.cells);
        ghost var before := updates;
        for q := 0 to |exits|
          invariant forall u :: u in updates <==> u in before || (u.value == BLACK && u.Target() in exits[..q])
        {
          assert exits[..q + 1] == exits[..q] + [exits[q]];
          var (i, j) := exits[q];
          updates := updates + [Update(i, j, BLACK)];
        }
        assert exits[..|exits|] == exits;
      }
      forall u
        ensures u in updates <==> Covers(p, islands, k + 1, u)
      {
        if Covers(p, islands, k + 1, u) && !Covers(p, islands, k, u) {
          assert Complete(islands[k]) && IsExit(p, islands[k].cells, u.Target());
        }
      }
    }
  }
}
