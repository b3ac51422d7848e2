/**
 * The search as its own docstrings describe it: every recorded solution is
 * the path from the start to that node alone (a per-branch copy instead of
 * the one shared list), and the shortest one is chosen. Beside it, the
 * concrete cases that show how the code as written differs.
 */
module CorrectedSearch {
  import opened Wrappers
  import opened MazeTree
  import opened MazeWalks
  import MazeSolver

  /**
   * find_solution as its docstring promises: the index of a shortest entry,
   * the first one on ties, or None for an empty list.
   */
  method ShortestIndex(paths: seq<seq<Pos>>) returns (index: Option<nat>)
    ensures index.None? <==> paths == []
    ensures index.Some? ==> index.value < |paths|
    ensures index.Some? ==> forall j :: 0 <= j < |paths| ==> |paths[index.value]| <= |paths[j]|
    ensures index.Some? ==> forall j :: 0 <= j < index.value ==> |paths[index.value]| < |paths[j]|
  {
    index := None;
    var shortestPathLength := 0;
    for i := 0 to |paths|
      invariant index.None? <==> i == 0
      invariant index.Some? ==> index.value < i && shortestPathLength == |paths[index.value]|
      invariant index.Some? ==> forall j :: 0 <= j < i ==> shortestPathLength <= |paths[j]|
      invariant index.Some? ==> forall j :: 0 <= j < index.value ==> shortestPathLength < |paths[j]|
    {
      if index.None? || |paths[i]| < shortestPathLength {
        index := Some(i);
        shortestPathLength := |paths[i]|;
      }
    }
  }

  /**
   * The corrected search over an explored tree: None exactly when no node is
   * at `end`, otherwise a shortest per-branch path to `end` (first on ties).
   * When t is the tree explored in maze m from its root, this is the
   * docstring's promise in full: None iff the maze has no walk from the root
   * to `end`, and otherwise such a walk no longer than any other.
   */
  method FindShortestSolution(ghost m: Maze, t: Tree, end: Pos) returns (r: Option<seq<Pos>>)
    ensures r.None? <==> Occurrences(t, end) == 0
    ensures r.Some? ==> r.value in BranchPaths(t, [], end)
    ensures r.Some? ==> forall p :: p in BranchPaths(t, [], end) ==> |r.value| <= |p|
    ensures Covers(m) && Explores(m, Sentinel, t) ==> (r.None? <==> !Reachable(m, t.pos, end))
    ensures Covers(m) && Explores(m, Sentinel, t) && r.Some? ==>
              WalkBetween(m, t.pos, end, r.value) && forall p :: WalkBetween(m, t.pos, end, p) ==> |r.value| <= |p|
  {
    var paths := BranchPaths(t, [], end);
    BranchPathsCount(t, [], end);
    var index := ShortestIndex(paths);
    match index {
      case None =>
        r := None;
      case Some(i) =>
        r := Some(paths[i]);
    }
    if Covers(m) && Explores(m, Sentinel, t) {
      ReachableIffOccurs(m, t, end);
      if r.Some? {
        ShortestBranchIsShortestWalk(m, t, end, r.value);
      }
    }
  }

  /**
   * On a tree Node builds from `start` (parent (-1, -1)), every per-branch
   * solution starts at `start`, ends at `end`, walks through open cells
   * without stepping straight back, and is at least one longer than the
   * Manhattan distance; none exist exactly when no node is at `end`.
   */
  lemma CorrectedSolutionsAreWalks(m: Maze, start: Pos, end: Pos, fuel: nat)
    requires Covers(m) && Build(m, Sentinel, start, fuel).Some?
    ensures var t := Build(m, Sentinel, start, fuel).value;
            |BranchPaths(t, [], end)| == Occurrences(t, end) &&
            forall p :: p in BranchPaths(t, [], end) ==>
              |p| > 0 && p[0] == start && p[|p| - 1] == end && IsWalk(m, p) && NoBacktrack(p) &&
              Manhattan(start, end) + 1 <= |p|
  {
    var t := Build(m, Sentinel, start, fuel).value;
    BuildExplores(m, Sentinel, start, fuel);
    BranchPathsCount(t, [], end);
    assert [] + [t.pos] == [start];
    BranchPathsAreWalks(m, Sentinel, t, [], end);
    forall p | p in BranchPaths(t, [], end)
      ensures |p| > 0 && p[0] == start && Manhattan(start, end) + 1 <= |p|
    {
      assert GoodPath(m, [start], end, p);
      assert p[..1] == [start];
      WalkLength(m, p);
    }
  }

  /** A one-row corridor of three open cells. */
  const Corridor: Maze := Maze(3, 1, [true, true, true])

  /** The corridor explored from (0, 0): a single chain (0, 0) -> (1, 0) -> (2, 0). */
  const CorridorTree: Tree := Tree(Pos(0, 0), [Tree(Pos(1, 0), [Tree(Pos(2, 0), [])])])

  /** What the cleaning loop keeps of one candidate. */
  function KeepOne(m: Maze, parent: Pos, q: Pos): seq<Pos>
    requires Covers(m)
  {
    if Admissible(m, parent, q) then [q] else []
  }

  lemma KeepSingle(m: Maze, parent: Pos, q: Pos)
    requires Covers(m)
    ensures Keep(m, parent, [q]) == KeepOne(m, parent, q)
  {
    assert [q][1..] == [];
  }

  /** The kept neighbours of p, candidate by candidate. */
  lemma KeepCandidates(m: Maze, parent: Pos, p: Pos)
    requires Covers(m)
    ensures var c := Candidates(p);
            Keep(m, parent, c) == KeepOne(m, parent, c[0]) + KeepOne(m, parent, c[1]) + KeepOne(m, parent, c[2]) + KeepOne(m, parent, c[3])
  {
    var c := Candidates(p);
    assert c == [c[0]] + [c[1]] + [c[2]] + [c[3]];
    KeepAppend(m, parent, [c[0]] + [c[1]] + [c[2]], [c[3]]);
    KeepAppend(m, parent, [c[0]] + [c[1]], [c[2]]);
    KeepAppend(m, parent, [c[0]], [c[1]]);
    KeepSingle(m, parent, c[0]);
    KeepSingle(m, parent, c[1]);
    KeepSingle(m, parent, c[2]);
    KeepSingle(m, parent, c[3]);
  }

  /** An open, in-bounds cell other than the parent is kept. */
  lemma KeepOpen(m: Maze, parent: Pos, q: Pos)
    requires Covers(m) && InBounds(m, q) && q != parent
    requires 0 <= Index(m, q) < |m.data| && m.data[Index(m, q)]
    ensures KeepOne(m, parent, q) == [q]
  {
  }

  /** The neighbours kept at (0, 0): only (1, 0). */
  lemma CorridorStart()
    ensures Keep(Corridor, Sentinel, Candidates(Pos(0, 0))) == [Pos(1, 0)]
  {
    KeepOpen(Corridor, Sentinel, Pos(1, 0));
    assert KeepOne(Corridor, Sentinel, Pos(0, -1)) == [] by {}
    assert KeepOne(Corridor, Sentinel, Pos(0, 1)) == [] by {}
    assert KeepOne(Corridor, Sentinel, Pos(-1, 0)) == [] by {}
    KeepCandidates(Corridor, Sentinel, Pos(0, 0));
  }

  /** The neighbours kept at (1, 0) coming from (0, 0): only (2, 0). */
  lemma CorridorMiddle()
    ensures Keep(Corridor, Pos(0, 0), Candidates(Pos(1, 0))) == [Pos(2, 0)]
  {
    KeepOpen(Corridor, Pos(0, 0), Pos(2, 0));
    assert KeepOne(Corridor, Pos(0, 0), Pos(1, -1)) == [] by {}
    assert KeepOne(Corridor, Pos(0, 0), Pos(1, 1)) == [] by {}
    assert KeepOne(Corridor, Pos(0, 0), Pos(0, 0)) == [] by {}
    KeepCandidates(Corridor, Pos(0, 0), Pos(1, 0));
  }

  /** Nothing is kept at (2, 0) coming from (1, 0). */
  lemma CorridorEnd()
    ensures Keep(Corridor, Pos(1, 0), Candidates(Pos(2, 0))) == []
  {
    assert KeepOne(Corridor, Pos(1, 0), Pos(3, 0)) == [] by {}
    assert KeepOne(Corridor, Pos(1, 0), Pos(1, 0)) == [] by {}
    assert KeepOne(Corridor, Pos(1, 0), Pos(2, -1)) == [] by {}
    assert KeepOne(Corridor, Pos(1, 0), Pos(2, 1)) == [] by {}
    KeepCandidates(Corridor, Pos(1, 0), Pos(2, 0));
  }

  lemma BuildAllSingle(m: Maze, parent: Pos, q: Pos, fuel: nat, t: Tree)
    requires Covers(m) && Build(m, parent, q, fuel) == Some(t)
    ensures BuildAll(m, parent, [q], fuel) == Some([t])
  {
    var ps := [q];
    assert ps[..|ps| - 1] == [] && ps[|ps| - 1] == q;
    assert BuildAll(m, parent, ps[..|ps| - 1], fuel) == Some([]);
    assert [] + [t] == [t];
  }

  lemma CorridorExplored()
    ensures Build(Corridor, Sentinel, Pos(0, 0), 3) == Some(CorridorTree)
  {
    var leaf := Tree(Pos(2, 0), []);
    var middle := Tree(Pos(1, 0), [leaf]);
    assert Build(Corridor, Pos(1, 0), Pos(2, 0), 1) == Some(leaf) by {
      CorridorEnd();
      assert BuildAll(Corridor, Pos(2, 0), [], 0) == Some([]);
    }
    assert Build(Corridor, Pos(0, 0), Pos(1, 0), 2) == Some(middle) by {
      CorridorMiddle();
      BuildAllSingle(Corridor, Pos(1, 0), Pos(2, 0), 1, leaf);
    }
    CorridorStart();
    BuildAllSingle(Corridor, Pos(0, 0), Pos(1, 0), 2, middle);
  }

  lemma SingleChild(t: Tree, e: Pos)
    ensures PreOrderAll([t]) == PreOrder(t) && OccurrencesAll([t], e) == Occurrences(t, e)
  {
    assert [t][..0] == [];
  }

  /** The corridor's listing is the whole row, with (1, 0) listed once. */
  lemma CorridorListing()
    ensures PreOrder(CorridorTree) == [Pos(0, 0), Pos(1, 0), Pos(2, 0)]
    ensures Occurrences(CorridorTree, Pos(1, 0)) == 1
  {
    var leaf := Tree(Pos(2, 0), []);
    var middle := Tree(Pos(1, 0), [leaf]);
    assert PreOrder(leaf) == [Pos(2, 0)] && Occurrences(leaf, Pos(1, 0)) == 0;
    SingleChild(leaf, Pos(1, 0));
    assert PreOrder(middle) == [Pos(1, 0), Pos(2, 0)] && Occurrences(middle, Pos(1, 0)) == 1;
    SingleChild(middle, Pos(1, 0));
  }

  /**
   * The solver as written, on the corridor from (0, 0) to (1, 0): the list it
   * reports is the whole traversal, which runs past the end to (2, 0).
   */
  method SharedPathOvershoots() returns (reported: seq<Pos>)
    ensures reported == [Pos(0, 0), Pos(1, 0), Pos(2, 0)]
    ensures reported[|reported| - 1] != Pos(1, 0)
  {
    CorridorExplored();
    var solver := new MazeSolver.Solver(3, 1, [true, true, true], Pos(0, 0), Pos(1, 0), 3);
    CorridorListing();
    var answer := solver.FindSolution();
    match answer
    case Solution(path) =>
      reported := path.items;
    case _ =>
      assert false;
      reported := [];
  }

  /** The corrected search on the same corridor reports exactly (0, 0), (1, 0). */
  method BranchPathStopsAtEnd() returns (reported: Option<seq<Pos>>)
    ensures reported == Some([Pos(0, 0), Pos(1, 0)])
  {
    var leaf := Tree(Pos(2, 0), []);
    var middle := Tree(Pos(1, 0), [leaf]);
    assert BranchPaths(leaf, [Pos(0, 0), Pos(1, 0)], Pos(1, 0)) == [];
    assert [leaf][..0] == [] && [middle][..0] == [];
    assert BranchPathsAll([leaf], [Pos(0, 0), Pos(1, 0)], Pos(1, 0)) == [];
    assert [Pos(0, 0)] + [Pos(1, 0)] == [Pos(0, 0), Pos(1, 0)] && [] + [Pos(0, 0)] == [Pos(0, 0)];
    assert BranchPaths(middle, [Pos(0, 0)], Pos(1, 0)) == [[Pos(0, 0), Pos(1, 0)]];
    assert BranchPathsAll([middle], [Pos(0, 0)], Pos(1, 0)) == [[Pos(0, 0), Pos(1, 0)]];
    assert BranchPaths(CorridorTree, [], Pos(1, 0)) == [[Pos(0, 0), Pos(1, 0)]];
    reported := FindShortestSolution(Corridor, CorridorTree, Pos(1, 0));
  }
}
