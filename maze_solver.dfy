/**
 * MazeSolver.py in its own imperative form: the Node objects that the
 * constructor builds recursively, the Solver that walks them once, and
 * find_solution. The abstract exploration tree of module MazeTree is kept in
 * ghost constants so that each method can be stated against it.
 */
module MazeSolver {
  import opened Wrappers
  import opened MazeTree
  import MazeWalks

  /**
   * The cleaning loop of Node.__init__: scan from the front, delete the first
   * entry that is the parent, out of bounds or blocked, and restart, until a
   * pass deletes nothing. The conditions are tested in the source's elif
   * order, so the grid is only read at a point already known to be in bounds.
   */
  method CleanNeighbours(parentNodePosition: Pos, candidates: seq<Pos>, maze: Maze) returns (adjacent: seq<Pos>)
    requires Covers(maze)
    ensures adjacent == Keep(maze, parentNodePosition, candidates)
  {
    adjacent := candidates;
    var emptyPass := false;
    while !emptyPass
      invariant Keep(maze, parentNodePosition, adjacent) == Keep(maze, parentNodePosition, candidates)
      invariant emptyPass ==> forall q :: q in adjacent ==> Admissible(maze, parentNodePosition, q)
      decreases |adjacent|, if emptyPass then 0 else 1
    {
      emptyPass := true;
      var i := 0;
      while i < |adjacent|
        invariant 0 <= i <= |adjacent|
        invariant emptyPass
        invariant forall j :: 0 <= j < i ==> Admissible(maze, parentNodePosition, adjacent[j])
      {
        var q := adjacent[i];
        var remove := false;
        if q == parentNodePosition {
          remove := true;
        } else if q.x < 0 || q.x >= maze.w {
          remove := true;
        } else if q.y < 0 || q.y >= maze.h {
          remove := true;
        } else {
          IndexInRange(maze, q);
          remove := !GetPoint(maze, q);
        }
        if remove {
          KeepDelete(maze, parentNodePosition, adjacent, i);
          adjacent := adjacent[..i] + adjacent[i + 1..];
          emptyPass := false;
          break;
        }
        assert Admissible(maze, parentNodePosition, adjacent[i]);
        i := i + 1;
      }
    }
    KeepAllAdmissible(maze, parentNodePosition, adjacent);
  }

  /** The nodes strictly below a list of sibling nodes. */
  ghost function Below(cs: seq<Node>): set<Node>
  {
    if cs == [] then {} else Below(cs[..|cs| - 1]) + {cs[|cs| - 1]} + cs[|cs| - 1].descendants
  }

  lemma {:induction false} BelowContains(cs: seq<Node>, k: nat)
    requires k < |cs|
    ensures {cs[k]} + cs[k].descendants <= Below(cs)
  {
    if k < |cs| - 1 {
      BelowContains(cs[..|cs| - 1], k);
    }
  }

  lemma BelowPrefix(cs: seq<Node>, k: nat)
    requires k < |cs|
    ensures Below(cs[..k + 1]) == Below(cs[..k]) + {cs[k]} + cs[k].descendants
  {
    assert cs[..k + 1][..k] == cs[..k];
  }

  lemma BelowAppend(cs: seq<Node>, c: Node)
    ensures Below(cs + [c]) == Below(cs) + c.Subtree()
  {
    assert (cs + [c])[..|cs|] == cs;
  }

  /** The nodes ns are valid roots of the trees ts, in order. */
  ghost predicate Built(ns: seq<Node>, ts: seq<Tree>)
    decreases ts
  {
    |ns| == |ts| && forall i :: 0 <= i < |ns| ==> ns[i].tree == ts[i] && ns[i].Valid()
  }

  lemma BuiltAppend(ns: seq<Node>, ts: seq<Tree>, k: nat, c: Node)
    requires k < |ts| && Built(ns, ts[..k]) && c.tree == ts[k] && c.Valid()
    ensures Built(ns + [c], ts[..k + 1])
  {
  }

  lemma BuildRoot(m: Maze, parent: Pos, pos: Pos, fuel: nat)
    requires Covers(m) && Build(m, parent, pos, fuel).Some?
    ensures fuel > 0
    ensures Build(m, parent, pos, fuel).value.pos == pos
    ensures |Build(m, parent, pos, fuel).value.children| == |Keep(m, parent, Candidates(pos))|
  {
    BuildShape(m, parent, pos, fuel);
  }

  /** The k-th kept neighbour builds, with one level less fuel, into the k-th child tree. */
  lemma BuildChild(m: Maze, parent: Pos, pos: Pos, fuel: nat, k: nat)
    requires Covers(m) && Build(m, parent, pos, fuel).Some?
    requires k < |Keep(m, parent, Candidates(pos))|
    ensures fuel > 0 && k < |Build(m, parent, pos, fuel).value.children|
    ensures Build(m, pos, Keep(m, parent, Candidates(pos))[k], fuel - 1) == Some(Build(m, parent, pos, fuel).value.children[k])
  {
    BuildShape(m, parent, pos, fuel);
  }

  /**
   * Node: a position, the `visited` mark and the child nodes. Only `visited`
   * ever changes after construction, so the other fields are constants.
   */
  class Node {
    const x: int
    const y: int
    var visited: bool
    const adjacentNodes: seq<Node>
    /** The exploration tree this node is the root of. */
    ghost const tree: Tree
    ghost const descendants: set<Node>

    ghost predicate Valid()
      decreases tree
    {
      && tree.pos == Pos(x, y)
      && Built(adjacentNodes, tree.children)
      && descendants == Below(adjacentNodes)
    }

    ghost function Subtree(): set<Node>
    {
      {this} + descendants
    }

    /** Node(parent_node_position, position, maze), when construction finishes within `fuel` levels. */
    constructor (parentNodePosition: Pos, position: Pos, maze: Maze, ghost fuel: nat)
      requires Covers(maze)
      requires Build(maze, parentNodePosition, position, fuel).Some?
      ensures Valid() && tree == Build(maze, parentNodePosition, position, fuel).value
      ensures fresh(Subtree())
      ensures forall n :: n in Subtree() ==> !n.visited
      decreases fuel
    {
      ghost var t := Build(maze, parentNodePosition, position, fuel).value;
      BuildRoot(maze, parentNodePosition, position, fuel);
      var adjacentNodePositions := CleanNeighbours(parentNodePosition, Candidates(position), maze);
      var nodes: seq<Node> := [];
      ghost var below: set<Node> := {};
      for k := 0 to |adjacentNodePositions|
        invariant |nodes| == k
        invariant Built(nodes, t.children[..k])
        invariant below == Below(nodes) && fresh(below)
        invariant forall n :: n in below ==> !n.visited
      {
        BuildChild(maze, parentNodePosition, position, fuel, k);
        var child := new Node(position, adjacentNodePositions[k], maze, fuel - 1);
        BuiltAppend(nodes, t.children, k, child);
        BelowAppend(nodes, child);
        nodes := nodes + [child];
        below := below + child.Subtree();
      }
      assert t.children[..|t.children|] == t.children;
      x, y := position.x, position.y;
      visited := false;
      adjacentNodes := nodes;
      tree := t;
      descendants := below;
    }
  }

  /** A Python list of positions: one object, possibly referenced from several places. */
  class PositionList {
    var items: seq<Pos>

    constructor ()
      ensures items == []
    {
      items := [];
    }
  }

  /** The value find_solution produces, or the TypeError it raises when no index was chosen. */
  datatype Answer = NoSolution | Solution(path: PositionList) | TypeErrorRaised

  /** The initial value of shortest_path_length in find_solution. */
  const SentinelLength := 99999999999

  /** n references to the same object. */
  function Repeat<T>(v: T, n: nat): (r: seq<T>)
    ensures |r| == n && forall i :: 0 <= i < n ==> r[i] == v
  {
    seq(n, _ => v)
  }

  lemma RepeatAdd<T>(v: T, a: nat, b: nat)
    ensures Repeat(v, a) + Repeat(v, b) == Repeat(v, a + b)
  {
  }

  /** One child's pre-order listing extends the shared path. */
  lemma PathStep(path0: seq<Pos>, cs: seq<Tree>, k: nat, before: seq<Pos>, after: seq<Pos>)
    requires k < |cs|
    requires before == path0 + PreOrderAll(cs[..k]) && after == before + PreOrder(cs[k])
    ensures after == path0 + PreOrderAll(cs[..k + 1])
  {
    PreOrderAllPrefix(cs, k);
  }

  lemma PathDone(start: seq<Pos>, t: Tree, path0: seq<Pos>, after: seq<Pos>)
    requires path0 == start + [t.pos] && after == path0 + PreOrderAll(t.children)
    ensures after == start + PreOrder(t)
  {
  }

  /** One child's solutions are appended to the solution list. */
  lemma SolutionsStep<T>(sols0: seq<T>, v: T, cs: seq<Tree>, k: nat, e: Pos, before: seq<T>, after: seq<T>)
    requires k < |cs|
    requires before == sols0 + Repeat(v, OccurrencesAll(cs[..k], e))
    requires after == before + Repeat(v, Occurrences(cs[k], e))
    ensures after == sols0 + Repeat(v, OccurrencesAll(cs[..k + 1], e))
  {
    OccurrencesAllPrefix(cs, k, e);
    RepeatAdd(v, OccurrencesAll(cs[..k], e), Occurrences(cs[k], e));
  }

  lemma SolutionsDone<T>(start: seq<T>, v: T, t: Tree, e: Pos, sols0: seq<T>, after: seq<T>)
    requires sols0 == start + Repeat(v, if t.pos == e then 1 else 0)
    requires after == sols0 + Repeat(v, OccurrencesAll(t.children, e))
    ensures after == start + Repeat(v, Occurrences(t, e))
  {
    RepeatAdd(v, if t.pos == e then 1 else 0, OccurrencesAll(t.children, e));
  }

  /** The lengths of the listed lists. */
  function PathLengths(paths: seq<PositionList>): (r: seq<int>)
    reads paths
    ensures |r| == |paths| && forall i :: 0 <= i < |paths| ==> r[i] == |paths[i].items|
  {
    if paths == [] then [] else PathLengths(paths[..|paths| - 1]) + [|paths[|paths| - 1].items|]
  }

  /**
   * The index find_solution's scan ends with: it compares every length with
   * the never-updated sentinel, so the LAST index whose length is below the
   * sentinel wins, and None remains when there is none.
   */
  function LastBelowSentinel(lengths: seq<int>): (r: Option<nat>)
    ensures r.Some? ==> r.value < |lengths| && lengths[r.value] < SentinelLength
    ensures r.Some? ==> forall j :: r.value < j < |lengths| ==> lengths[j] >= SentinelLength
    ensures r.None? ==> forall j :: 0 <= j < |lengths| ==> lengths[j] >= SentinelLength
  {
    if lengths == [] then None
    else if lengths[|lengths| - 1] < SentinelLength then Some(|lengths| - 1)
    else LastBelowSentinel(lengths[..|lengths| - 1])
  }

  class Solver {
    const start: Pos
    const end: Pos
    const maze: Maze
    const startNode: Node
    const currentPath: PositionList
    var solutionPaths: seq<PositionList>
    /** A depth within which the exploration tree is complete. */
    ghost const fuel: nat

    /**
     * After construction: the tree is the one Node builds from `start`, the
     * shared path lists every tree position in pre-order, and the solution
     * list holds one reference to that same list per node at `end`.
     */
    ghost predicate Valid()
      reads this, currentPath
    {
      && Covers(maze)
      && Build(maze, Sentinel, start, fuel) == Some(startNode.tree)
      && startNode.Valid()
      && currentPath.items == PreOrder(startNode.tree)
      && solutionPaths == Repeat(currentPath, Occurrences(startNode.tree, end))
    }

    /** Solver((w, h), m, start, end): builds the tree and traverses it at once. */
    constructor (w: int, h: int, m: seq<bool>, start: Pos, end: Pos, ghost fuel: nat)
      requires Covers(Maze(w, h, m))
      requires Build(Maze(w, h, m), Sentinel, start, fuel).Some?
      ensures Valid()
      ensures this.start == start && this.end == end && maze == Maze(w, h, m) && this.fuel == fuel
      ensures fresh(startNode.Subtree()) && fresh(currentPath)
      ensures forall n :: n in startNode.Subtree() ==> n.visited
    {
      this.start := start;
      this.end := end;
      maze := Maze(w, h, m);
      this.fuel := fuel;
      startNode := new Node(Sentinel, start, Maze(w, h, m), fuel);
      currentPath := new PositionList();
      solutionPaths := [];
      new;
      VisitNode(startNode);
    }

    /**
     * __visit_node: mark the node, append its position to the one shared
     * list, record a reference to that list when the node is at `end`, then
     * visit the children in order. Nothing is ever removed from the list.
     */
    method VisitNode(node: Node)
      requires node.Valid()
      modifies this`solutionPaths, currentPath, node.Subtree()
      ensures currentPath.items == old(currentPath.items) + PreOrder(node.tree)
      ensures solutionPaths == old(solutionPaths) + Repeat(currentPath, Occurrences(node.tree, end))
      ensures forall n :: n in node.Subtree() ==> n.visited
      decreases node.tree, 1
    {
      node.visited := true;
      currentPath.items := currentPath.items + [Pos(node.x, node.y)];
      ghost var here := if node.tree.pos == end then 1 else 0;
      if Pos(node.x, node.y) == end {
        solutionPaths := solutionPaths + [currentPath];
      }
      assert solutionPaths == old(solutionPaths) + Repeat(currentPath, here);
      ghost var path0, sols0 := currentPath.items, solutionPaths;
      VisitAdjacentNodes(node);
      PathDone(old(currentPath.items), node.tree, path0, currentPath.items);
      SolutionsDone(old(solutionPaths), currentPath, node.tree, end, sols0, solutionPaths);
    }

    /** The loop of __visit_node over node.adjacent_nodes, in order. */
    method VisitAdjacentNodes(node: Node)
      requires node.Valid()
      modifies this`solutionPaths, currentPath, node.descendants
      ensures currentPath.items == old(currentPath.items) + PreOrderAll(node.tree.children)
      ensures solutionPaths == old(solutionPaths) + Repeat(currentPath, OccurrencesAll(node.tree.children, end))
      ensures forall n :: n in node.descendants ==> n.visited
      ensures node.visited == old(node.visited) || node in node.descendants
      decreases node.tree, 0
    {
      ghost var path0, sols0 := currentPath.items, solutionPaths;
      ghost var cs := node.tree.children;
      var children := node.adjacentNodes;
      ghost var done: set<Node> := {};
      for k := 0 to |children|
        invariant currentPath.items == path0 + PreOrderAll(cs[..k])
        invariant solutionPaths == sols0 + Repeat(currentPath, OccurrencesAll(cs[..k], end))
        invariant done == Below(children[..k])
        invariant forall n :: n in done ==> n.visited
        invariant node.visited == old(node.visited) || node in done
      {
        var child := children[k];
        BelowContains(children, k);
        ghost var pathBefore, solsBefore := currentPath.items, solutionPaths;
        VisitNode(child);
        PathStep(path0, cs, k, pathBefore, currentPath.items);
        SolutionsStep(sols0, currentPath, cs, k, end, solsBefore, solutionPaths);
        BelowPrefix(children, k);
        done := done + child.Subtree();
      }
      assert children[..|children|] == children;
      assert cs[..|cs|] == cs;
    }

    /**
     * find_solution: None when nothing was recorded; otherwise the entry at
     * the index the scan ends with (see LastBelowSentinel), or TypeError when
     * the scan chose no index.
     */
    method FindSolution() returns (r: Answer)
      ensures r == NoSolution <==> |solutionPaths| == 0
      ensures |solutionPaths| > 0 ==>
                r == match LastBelowSentinel(PathLengths(solutionPaths))
                     case None => TypeErrorRaised
                     case Some(i) => Solution(solutionPaths[i])
      ensures Valid() && Occurrences(startNode.tree, end) > 0 && |PreOrder(startNode.tree)| < SentinelLength ==>
                r == Solution(currentPath) && solutionPaths[|solutionPaths| - 1] == currentPath
      ensures Valid() ==> (r == NoSolution <==> end !in currentPath.items)
      ensures Valid() && start == end ==> r != NoSolution
      ensures Valid() ==> (r == NoSolution <==> !MazeWalks.Reachable(maze, start, end))
    {
      if Valid() {
        MazeWalks.ReachableIffListed(maze, start, end, fuel);
      }
      if |solutionPaths| == 0 {
        return NoSolution;
      }
      var shortestPathIndex: Option<nat> := None;
      var shortestPathLength := SentinelLength;
      ghost var lengths := PathLengths(solutionPaths);
      for i := 0 to |solutionPaths|
        invariant shortestPathIndex == LastBelowSentinel(lengths[..i])
      {
        if |solutionPaths[i].items| < shortestPathLength {
          shortestPathIndex := Some(i);
        }
        assert lengths[..i + 1][..i] == lengths[..i];
      }
      assert lengths[..|solutionPaths|] == lengths;
      match shortestPathIndex
      case None =>
        r := TypeErrorRaised;
      case Some(i) =>
        r := Solution(solutionPaths[i]);
    }
  }
}
