/**
 * The exit analyser: the WHITE cells next to a component, listed once each.
 */
module Exits {
  import opened Grid
  import opened Board
  import opened Regions

  /** c is a WHITE cell of the grid touching some cell of `cells`. */
  ghost predicate IsExit(p: Puzzle, cells: seq<Cell>, c: Cell)
    reads p.board
    requires p.Valid()
  {
    InGrid(p.size, c) && p.TypeAt(c) == WHITE && exists x :: x in cells && Adjacent(x, c)
  }

  /** All exits of a cell list, as a set. */
  ghost function ExitSet(p: Puzzle, cells: seq<Cell>): (e: set<Cell>)
    reads p.board
    requires p.Valid()
    ensures forall c :: c in e <==> IsExit(p, cells, c)
  {
    set a, b | 0 <= a < p.size && 0 <= b < p.size && IsExit(p, cells, (a, b)) :: (a, b)
  }

  /** A list without repetition has as many elements as its set. */
  lemma {:induction false} DistinctCard(s: seq<Cell>)
    requires Distinct(s)
    ensures |SetOf(s)| == |s|
  {
    if |s| > 0 {
      var t := s[..|s| - 1];
      assert Distinct(t);
      DistinctCard(t);
      assert s == t + [s[|s| - 1]];
      assert SetOf(s) == SetOf(t) + {s[|s| - 1]};
      assert s[|s| - 1] !in SetOf(t);
    }
  }

  /** Two members of a one-element set are the same. */
  lemma SingletonUnique(s: set<Cell>, a: Cell, b: Cell)
    requires |s| == 1 && a in s && b in s
    ensures a == b
  {
    assert |s - {a}| == 0;
  }

  /** The codes list mirrors the cells found so far, each under its row-major code. */
  ghost predicate CodesOf(size: int, codes: seq<int>, found: seq<Cell>)
  {
    |codes| == |found| &&
    forall k :: 0 <= k < |found| ==> InGrid(size, found[k]) && codes[k] == Encode(size, found[k].0, found[k].1)
  }

  /** Looking a code up among the codes is looking the cell up among the cells. */
  lemma CodeLookup(size: int, codes: seq<int>, found: seq<Cell>, n: Cell)
    requires CodesOf(size, codes, found) && InGrid(size, n)
    ensures Encode(size, n.0, n.1) in codes <==> n in found
  {
    if Encode(size, n.0, n.1) in codes {
      var k :| 0 <= k < |codes| && codes[k] == Encode(size, n.0, n.1);
      EncodeInjective(size, found[k], n);
    }
    if n in found {
      var k :| 0 <= k < |found| && found[k] == n;
    }
  }

  /** Exits of a prefix of the cells, plus the WHITE cells among some neighbours of the next one. */
  ghost predicate FoundSoFar(p: Puzzle, cells: seq<Cell>, r: int, ns: seq<Cell>, found: seq<Cell>)
    reads p.board
    requires p.Valid() && 0 <= r <= |cells|
  {
    forall c :: c in found <==> IsExit(p, cells[..r], c) || (c in ns && InGrid(p.size, c) && p.TypeAt(c) == WHITE)
  }

  /** Scanning all the neighbours of cells[r] turns the prefix cells[..r] into cells[..r + 1]. */
  lemma NextCell(p: Puzzle, cells: seq<Cell>, r: int, found: seq<Cell>)
    requires p.Valid() && 0 <= r < |cells|
    requires FoundSoFar(p, cells, r, Neighbors(p.size, cells[r].0, cells[r].1), found)
    ensures FoundSoFar(p, cells, r + 1, [], found)
  {
    assert cells[..r + 1] == cells[..r] + [cells[r]];
    forall c
      ensures c in found <==> IsExit(p, cells[..r + 1], c)
    {
      if IsExit(p, cells[..r + 1], c) {
        var x :| x in cells[..r + 1] && Adjacent(x, c);
        if x !in cells[..r] {
          assert x == cells[r];
        }
      }
    }
  }

  /**
   * The exits of a component: every WHITE cell next to one of its cells,
   * each listed once. Cells are kept as their row-major codes while the
   * list is built and decoded at the end.
   */
  method GetExits(p: Puzzle, cells: seq<Cell>) returns (exits: seq<Cell>)
    requires p.Valid()
    ensures Distinct(exits)
    ensures forall c :: c in exits <==> IsExit(p, cells, c)
    ensures SetOf(exits) == ExitSet(p, cells) && |exits| == |ExitSet(p, cells)|
  {
    var codes: seq<int> := [];
    ghost var found: seq<Cell> := [];
    for r := 0 to |cells|
      invariant CodesOf(p.size, codes, found) && Distinct(found)
      invariant FoundSoFar(p, cells, r, [], found)
    {
      var (i, j) := cells[r];
      var ns := Neighbors(p.size, i, j);
      for q := 0 to |ns|
        invariant CodesOf(p.size, codes, found) && Distinct(found)
        invariant FoundSoFar(p, cells, r, ns[..q], found)
      {
        var (ni, nj) := ns[q];
        assert ns[..q + 1] == ns[..q] + [ns[q]];
        CodeLookup(p.size, codes, found, ns[q]);
        if p.TypeOf(ni, nj) == WHITE && Encode(p.size, ni, nj) !in codes {
          codes := codes + [Encode(p.size, ni, nj)];
          found := found + [(ni, nj)];
        }
      }
      assert ns[..|ns|] == ns;
      NextCell(p, cells, r, found);
    }
    assert cells[..|cells|] == cells;
    exits := seq(|codes|, k requires 0 <= k < |codes| => Decode(p.size, codes[k]));
    forall k | 0 <= k < |found|
      ensures exits[k] == found[k]
    {
      DecodeEncode(p.size, found[k].0, found[k].1);
    }
    assert exits == found;
    DistinctCard(exits);
  }
}
