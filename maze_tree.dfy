/**
 * The value-level view of MazeSolver.py: the maze, the neighbour rule of a
 * Node, and the exploration tree that the recursive Node constructor builds.
 * Python's construction need not terminate (it only forbids stepping straight
 * back to the parent), so the tree is described by a function with a fuel
 * bound: Build(...) == Some(t) says that construction finishes within `fuel`
 * levels and yields `t`.
 */
module MazeTree {
  import opened Wrappers

  /** A grid cell (x, y), used both as grid key and as a path step. */
  datatype Pos = Pos(x: int, y: int)

  /** The parent position given to the root node, (-1, -1). */
  const Sentinel := Pos(-1, -1)

  /** Maze: width, height and the flat row-major passability grid (true = open). */
  datatype Maze = Maze(w: int, h: int, data: seq<bool>)

  /** The flat index that get_point reads: y * w + x. */
  function Index(m: Maze, p: Pos): int
  {
    p.y * m.w + p.x
  }

  predicate InBounds(m: Maze, p: Pos)
  {
    0 <= p.x < m.w && 0 <= p.y < m.h
  }

  /** Every in-bounds point has a cell: the grid holds at least w * h entries. */
  predicate Covers(m: Maze)
  {
    m.w <= 0 || m.h <= 0 || m.w * m.h <= |m.data|
  }

  /**
   * Maze.get_point: a Python list lookup, so an index in -len..-1 reads from
   * the end of the list and anything outside -len..len-1 raises IndexError.
   */
  function GetPoint(m: Maze, p: Pos): (r: bool)
    requires -|m.data| <= Index(m, p) < |m.data|
    ensures 0 <= p.x < m.w && 0 <= p.y ==> r == m.data[p.y * m.w + p.x]
  {
    assert 0 <= p.x < m.w && 0 <= p.y ==> 0 <= p.y * m.w by {
      if 0 <= p.x < m.w && 0 <= p.y {
        MulMonotone(0, p.y, m.w);
      }
    }
    var i := Index(m, p);
    if i < 0 then m.data[i + |m.data|] else m.data[i]
  }

  lemma MulMonotone(a: int, b: int, c: int)
    requires a <= b && 0 <= c
    ensures a * c <= b * c
  {
  }

  /** An in-bounds point of a covering grid reads data[y * w + x], a valid index. */
  lemma IndexInRange(m: Maze, p: Pos)
    requires Covers(m) && InBounds(m, p)
    ensures 0 <= Index(m, p) < |m.data|
    ensures GetPoint(m, p) == m.data[p.y * m.w + p.x]
  {
    MulMonotone(0, p.y, m.w);
    MulMonotone(p.y, m.h - 1, m.w);
    assert (m.h - 1) * m.w + m.w == m.w * m.h;
  }

  /** The cell at an in-bounds point is open. */
  predicate Passable(m: Maze, p: Pos)
    requires Covers(m) && InBounds(m, p)
  {
    IndexInRange(m, p);
    GetPoint(m, p)
  }

  /** The four neighbours in the order the Node constructor lists them: up, right, down, left. */
  function Candidates(p: Pos): seq<Pos>
  {
    [Pos(p.x, p.y - 1), Pos(p.x + 1, p.y), Pos(p.x, p.y + 1), Pos(p.x - 1, p.y)]
  }

  /** The grid distance |a.x - b.x| + |a.y - b.y|. */
  function Manhattan(a: Pos, b: Pos): nat
  {
    (if a.x < b.x then b.x - a.x else a.x - b.x) + (if a.y < b.y then b.y - a.y else a.y - b.y)
  }

  /** p and q are 4-adjacent. */
  predicate Adjacent(p: Pos, q: Pos)
  {
    Manhattan(p, q) == 1
  }

  /** A neighbour survives the cleaning loop iff it is not the parent, is in bounds and is open. */
  predicate Admissible(m: Maze, parent: Pos, q: Pos)
    requires Covers(m)
  {
    q != parent && InBounds(m, q) && Passable(m, q)
  }

  /** The admissible entries of ps, in their original order. */
  function Keep(m: Maze, parent: Pos, ps: seq<Pos>): (r: seq<Pos>)
    requires Covers(m)
    ensures |r| <= |ps|
    ensures forall q :: q in r <==> q in ps && Admissible(m, parent, q)
  {
    if ps == [] then []
    else (if Admissible(m, parent, ps[0]) then [ps[0]] else []) + Keep(m, parent, ps[1..])
  }

  lemma {:induction false} KeepAppend(m: Maze, parent: Pos, a: seq<Pos>, b: seq<Pos>)
    requires Covers(m)
    ensures Keep(m, parent, a + b) == Keep(m, parent, a) + Keep(m, parent, b)
  {
    if a == [] {
      assert a + b == b;
    } else {
      assert (a + b)[0] == a[0];
      assert (a + b)[1..] == a[1..] + b;
      KeepAppend(m, parent, a[1..], b);
    }
  }

  /** Deleting an inadmissible entry does not change what is kept. */
  lemma KeepDelete(m: Maze, parent: Pos, s: seq<Pos>, i: nat)
    requires Covers(m) && i < |s| && !Admissible(m, parent, s[i])
    ensures Keep(m, parent, s[..i] + s[i + 1..]) == Keep(m, parent, s)
  {
    assert s == s[..i] + ([s[i]] + s[i + 1..]);
    KeepAppend(m, parent, s[..i], [s[i]] + s[i + 1..]);
    KeepAppend(m, parent, s[..i], s[i + 1..]);
    assert Keep(m, parent, [s[i]] + s[i + 1..]) == Keep(m, parent, s[i + 1..]) by {
      assert ([s[i]] + s[i + 1..])[1..] == s[i + 1..];
    }
  }

  /** A list whose every entry is admissible is kept whole. */
  lemma {:induction false} KeepAllAdmissible(m: Maze, parent: Pos, s: seq<Pos>)
    requires Covers(m) && forall q :: q in s ==> Admissible(m, parent, q)
    ensures Keep(m, parent, s) == s
  {
    if s != [] {
      KeepAllAdmissible(m, parent, s[1..]);
    }
  }

  /** Two parents that are both absent from the list exclude nothing from it. */
  lemma {:induction false} KeepAbsentParent(m: Maze, a: Pos, b: Pos, s: seq<Pos>)
    requires Covers(m) && a !in s && b !in s
    ensures Keep(m, a, s) == Keep(m, b, s)
  {
    if s != [] {
      KeepAbsentParent(m, a, b, s[1..]);
    }
  }

  /**
   * The root's parent (-1, -1) is no neighbour of an in-bounds cell, so for the
   * start node the cleaning loop only drops out-of-bounds and blocked cells.
   */
  lemma SentinelExcludesNothing(m: Maze, p: Pos, other: Pos)
    requires Covers(m) && InBounds(m, p) && other !in Candidates(p)
    ensures Sentinel !in Candidates(p)
    ensures Keep(m, Sentinel, Candidates(p)) == Keep(m, other, Candidates(p))
  {
    KeepAbsentParent(m, Sentinel, other, Candidates(p));
  }

  /** The exploration tree: one node per position reached, children in neighbour order. */
  datatype Tree = Tree(pos: Pos, children: seq<Tree>)

  /**
   * Node(parent, pos, maze) within `fuel` levels: None when some branch is
   * deeper than the fuel allows (Python would keep recursing).
   */
  function Build(m: Maze, parent: Pos, pos: Pos, fuel: nat): (r: Option<Tree>)
    requires Covers(m)
    ensures r.Some? ==> fuel > 0 && r.value.pos == pos
    decreases fuel, 1, 0
  {
    if fuel == 0 then None
    else
      match BuildAll(m, pos, Keep(m, parent, Candidates(pos)), fuel - 1)
      case None => None
      case Some(cs) => Some(Tree(pos, cs))
  }

  /** The children built, in order, for the positions ps, all with the same parent. */
  function BuildAll(m: Maze, parent: Pos, ps: seq<Pos>, fuel: nat): (r: Option<seq<Tree>>)
    requires Covers(m)
    ensures r.Some? ==> |r.value| == |ps|
    decreases fuel + 1, 0, |ps|
  {
    if ps == [] then Some([])
    else
      match BuildAll(m, parent, ps[..|ps| - 1], fuel)
      case None => None
      case Some(ts) =>
        match Build(m, parent, ps[|ps| - 1], fuel)
        case None => None
        case Some(t) => Some(ts + [t])
  }

  /** BuildAll succeeds iff each child builds, and it lists those children in order. */
  lemma {:induction false} BuildAllAt(m: Maze, parent: Pos, ps: seq<Pos>, fuel: nat)
    requires Covers(m)
    ensures BuildAll(m, parent, ps, fuel).Some? <==> forall k :: 0 <= k < |ps| ==> Build(m, parent, ps[k], fuel).Some?
    ensures BuildAll(m, parent, ps, fuel).Some? ==>
              var ts := BuildAll(m, parent, ps, fuel).value;
              |ts| == |ps| && forall k :: 0 <= k < |ps| ==> Build(m, parent, ps[k], fuel) == Some(ts[k])
  {
    if ps != [] {
      var n := |ps| - 1;
      var init := ps[..n];
      BuildAllAt(m, parent, init, fuel);
      assert forall k :: 0 <= k < n ==> init[k] == ps[k];
      if BuildAll(m, parent, ps, fuel).Some? {
        var ts, ts0 := BuildAll(m, parent, ps, fuel).value, BuildAll(m, parent, init, fuel).value;
        assert ts == ts0 + [Build(m, parent, ps[n], fuel).value];
        forall k | 0 <= k < |ps|
          ensures Build(m, parent, ps[k], fuel) == Some(ts[k])
        {
          if k < n {
            assert ts[k] == ts0[k];
          }
        }
      } else if BuildAll(m, parent, init, fuel).None? {
        var k0 :| 0 <= k0 < n && Build(m, parent, init[k0], fuel).None?;
        assert Build(m, parent, ps[k0], fuel).None?;
      } else {
        assert Build(m, parent, ps[n], fuel).None?;
      }
    }
  }

  /** The root of a built tree is at the requested position, and its children are the built neighbours. */
  lemma BuildShape(m: Maze, parent: Pos, pos: Pos, fuel: nat)
    requires Covers(m) && Build(m, parent, pos, fuel).Some?
    ensures fuel > 0
    ensures var t := Build(m, parent, pos, fuel).value;
            var kept := Keep(m, parent, Candidates(pos));
            t.pos == pos && |t.children| == |kept| &&
            forall k :: 0 <= k < |kept| ==> Build(m, pos, kept[k], fuel - 1) == Some(t.children[k])
  {
    BuildAllAt(m, pos, Keep(m, parent, Candidates(pos)), fuel - 1);
  }

  /** More fuel never changes a construction that already finished. */
  lemma {:induction false} BuildFuelMonotone(m: Maze, parent: Pos, pos: Pos, fuel: nat)
    requires Covers(m) && Build(m, parent, pos, fuel).Some?
    ensures Build(m, parent, pos, fuel + 1) == Build(m, parent, pos, fuel)
    decreases fuel, 1, 0
  {
    BuildAllFuelMonotone(m, pos, Keep(m, parent, Candidates(pos)), fuel - 1);
  }

  lemma {:induction false} BuildAllFuelMonotone(m: Maze, parent: Pos, ps: seq<Pos>, fuel: nat)
    requires Covers(m) && BuildAll(m, parent, ps, fuel).Some?
    ensures BuildAll(m, parent, ps, fuel + 1) == BuildAll(m, parent, ps, fuel)
    decreases fuel + 1, 0, |ps|
  {
    if ps != [] {
      BuildAllFuelMonotone(m, parent, ps[..|ps| - 1], fuel);
      BuildFuelMonotone(m, parent, ps[|ps| - 1], fuel);
    }
  }

  function Positions(ts: seq<Tree>): (r: seq<Pos>)
    ensures |r| == |ts| && forall k :: 0 <= k < |ts| ==> r[k] == ts[k].pos
  {
    if ts == [] then [] else Positions(ts[..|ts| - 1]) + [ts[|ts| - 1].pos]
  }

  /**
   * t is an exploration tree for a node whose parent is `parent`: its
   * children sit exactly at the kept neighbours, in order, each explored with
   * this node as its parent.
   */
  ghost predicate Explores(m: Maze, parent: Pos, t: Tree)
    requires Covers(m)
    decreases t
  {
    && Positions(t.children) == Keep(m, parent, Candidates(t.pos))
    && forall k :: 0 <= k < |t.children| ==> Explores(m, t.pos, t.children[k])
  }

  /** Every tree the constructor builds follows the neighbour rule at every node. */
  lemma {:induction false} BuildExplores(m: Maze, parent: Pos, pos: Pos, fuel: nat)
    requires Covers(m) && Build(m, parent, pos, fuel).Some?
    ensures Build(m, parent, pos, fuel).value.pos == pos
    ensures Explores(m, parent, Build(m, parent, pos, fuel).value)
    decreases fuel
  {
    var t := Build(m, parent, pos, fuel).value;
    var kept := Keep(m, parent, Candidates(pos));
    BuildShape(m, parent, pos, fuel);
    forall k | 0 <= k < |t.children|
      ensures Explores(m, t.pos, t.children[k]) && t.children[k].pos == kept[k]
    {
      BuildExplores(m, pos, kept[k], fuel - 1);
    }
  }

  /** A child's position is an admissible neighbour of its node: adjacent, in bounds, open, and not the grandparent. */
  lemma ChildIsAdmissible(m: Maze, parent: Pos, t: Tree, k: nat)
    requires Covers(m) && Explores(m, parent, t) && k < |t.children|
    ensures Admissible(m, parent, t.children[k].pos)
    ensures Adjacent(t.pos, t.children[k].pos)
  {
    var kept := Keep(m, parent, Candidates(t.pos));
    assert t.children[k].pos == kept[k];
    assert kept[k] in kept;
  }

  /** Pre-order listing of the positions: node first, then each child's listing in order. */
  function PreOrder(t: Tree): seq<Pos>
    decreases t
  {
    [t.pos] + PreOrderAll(t.children)
  }

  function PreOrderAll(ts: seq<Tree>): seq<Pos>
    decreases ts
  {
    if ts == [] then [] else PreOrderAll(ts[..|ts| - 1]) + PreOrder(ts[|ts| - 1])
  }

  lemma PreOrderAllPrefix(ts: seq<Tree>, k: nat)
    requires k < |ts|
    ensures PreOrderAll(ts[..k + 1]) == PreOrderAll(ts[..k]) + PreOrder(ts[k])
  {
    assert ts[..k + 1][..k] == ts[..k];
  }

  /** Number of nodes of t at position e. */
  function Occurrences(t: Tree, e: Pos): nat
    decreases t
  {
    (if t.pos == e then 1 else 0) + OccurrencesAll(t.children, e)
  }

  function OccurrencesAll(ts: seq<Tree>, e: Pos): nat
    decreases ts
  {
    if ts == [] then 0 else OccurrencesAll(ts[..|ts| - 1], e) + Occurrences(ts[|ts| - 1], e)
  }

  lemma OccurrencesAllPrefix(ts: seq<Tree>, k: nat, e: Pos)
    requires k < |ts|
    ensures OccurrencesAll(ts[..k + 1], e) == OccurrencesAll(ts[..k], e) + Occurrences(ts[k], e)
  {
    assert ts[..k + 1][..k] == ts[..k];
  }

  /** The node count at e is the number of times e appears in the pre-order listing. */
  lemma {:induction false} OccurrencesInPreOrder(t: Tree, e: Pos)
    ensures Occurrences(t, e) == multiset(PreOrder(t))[e]
    decreases t
  {
    OccurrencesAllInPreOrder(t.children, e);
  }

  lemma {:induction false} OccurrencesAllInPreOrder(ts: seq<Tree>, e: Pos)
    ensures OccurrencesAll(ts, e) == multiset(PreOrderAll(ts))[e]
    decreases ts
  {
    if ts != [] {
      OccurrencesAllInPreOrder(ts[..|ts| - 1], e);
      OccurrencesInPreOrder(ts[|ts| - 1], e);
    }
  }

  /** No node is at e exactly when e is missing from the pre-order listing; a root at e is one. */
  lemma NoOccurrenceIffUnlisted(t: Tree, e: Pos)
    ensures Occurrences(t, e) == 0 <==> e !in PreOrder(t)
    ensures t.pos == e ==> Occurrences(t, e) >= 1
  {
    OccurrencesInPreOrder(t, e);
  }
}
