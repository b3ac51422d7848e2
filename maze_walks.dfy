/**
 * Walks through the maze and how the exploration tree of module MazeTree
 * relates to them: the root-to-node path of every node is an open walk that
 * never steps straight back, and conversely every such walk from the root is
 * the path to some node of the tree.
 */
module MazeWalks {
  import opened MazeTree

  /**
   * The root-to-node path of every node of t at e, in pre-order; `prefix`
   * is the path down to t's parent.
   */
  function BranchPaths(t: Tree, prefix: seq<Pos>, e: Pos): seq<seq<Pos>>
    decreases t
  {
    (if t.pos == e then [prefix + [t.pos]] else []) + BranchPathsAll(t.children, prefix + [t.pos], e)
  }

  function BranchPathsAll(ts: seq<Tree>, prefix: seq<Pos>, e: Pos): seq<seq<Pos>>
    decreases ts
  {
    if ts == [] then [] else BranchPathsAll(ts[..|ts| - 1], prefix, e) + BranchPaths(ts[|ts| - 1], prefix, e)
  }

  /** One path per node at e: the same number of entries as the shared-list version records. */
  lemma {:induction false} BranchPathsCount(t: Tree, prefix: seq<Pos>, e: Pos)
    ensures |BranchPaths(t, prefix, e)| == Occurrences(t, e)
    decreases t
  {
    BranchPathsAllCount(t.children, prefix + [t.pos], e);
  }

  lemma {:induction false} BranchPathsAllCount(ts: seq<Tree>, prefix: seq<Pos>, e: Pos)
    ensures |BranchPathsAll(ts, prefix, e)| == OccurrencesAll(ts, e)
    decreases ts
  {
    if ts != [] {
      BranchPathsAllCount(ts[..|ts| - 1], prefix, e);
      BranchPathsCount(ts[|ts| - 1], prefix, e);
    }
  }

  /** Step k of p moves to a 4-adjacent, in-bounds, open cell. */
  ghost predicate WalkStep(m: Maze, p: seq<Pos>, k: nat)
    requires Covers(m) && k + 1 < |p|
  {
    Adjacent(p[k], p[k + 1]) && InBounds(m, p[k + 1]) && Passable(m, p[k + 1])
  }

  ghost predicate IsWalk(m: Maze, p: seq<Pos>)
    requires Covers(m)
  {
    forall k: nat :: k + 1 < |p| ==> WalkStep(m, p, k)
  }

  /** No step goes straight back to the cell just left. */
  ghost predicate NoBacktrack(p: seq<Pos>)
  {
    forall k :: 0 <= k < |p| - 2 ==> p[k + 2] != p[k]
  }

  /** A well-formed path to e that starts with the given prefix. */
  ghost predicate GoodPath(m: Maze, prefix: seq<Pos>, e: Pos, p: seq<Pos>)
    requires Covers(m)
  {
    0 < |p| && |prefix| <= |p| && p[..|prefix|] == prefix && p[|p| - 1] == e && IsWalk(m, p) && NoBacktrack(p)
  }

  lemma AppendWalk(m: Maze, p: seq<Pos>, x: Pos)
    requires Covers(m) && IsWalk(m, p) && 0 < |p|
    requires Adjacent(p[|p| - 1], x) && InBounds(m, x) && Passable(m, x)
    ensures IsWalk(m, p + [x])
  {
    var q := p + [x];
    forall i: nat | i + 1 < |q|
      ensures WalkStep(m, q, i)
    {
      if i + 1 < |p| {
        assert WalkStep(m, p, i);
        assert q[i] == p[i] && q[i + 1] == p[i + 1];
      }
    }
  }

  lemma AppendNoBacktrack(p: seq<Pos>, x: Pos)
    requires NoBacktrack(p)
    requires |p| >= 2 ==> p[|p| - 2] != x
    ensures NoBacktrack(p + [x])
  {
    var q := p + [x];
    forall i | 0 <= i < |q| - 2
      ensures q[i + 2] != q[i]
    {
      if i < |p| - 2 {
        assert q[i + 2] == p[i + 2] && q[i] == p[i];
      }
    }
  }

  lemma ExtendWalk(m: Maze, parent: Pos, t: Tree, prefix: seq<Pos>, k: nat)
    requires Covers(m) && Explores(m, parent, t) && k < |t.children|
    requires IsWalk(m, prefix + [t.pos]) && NoBacktrack(prefix + [t.pos])
    requires prefix != [] ==> prefix[|prefix| - 1] == parent
    ensures IsWalk(m, prefix + [t.pos] + [t.children[k].pos]) && NoBacktrack(prefix + [t.pos] + [t.children[k].pos])
  {
    ChildIsAdmissible(m, parent, t, k);
    var p := prefix + [t.pos];
    AppendWalk(m, p, t.children[k].pos);
    if |p| >= 2 {
      assert p[|p| - 2] == parent;
    }
    AppendNoBacktrack(p, t.children[k].pos);
  }

  /**
   * Under the neighbour rule, every per-branch path is a walk through open
   * cells that never steps straight back, extends its prefix and ends at e.
   */
  lemma {:induction false} BranchPathsAreWalks(m: Maze, parent: Pos, t: Tree, prefix: seq<Pos>, e: Pos)
    requires Covers(m) && Explores(m, parent, t)
    requires IsWalk(m, prefix + [t.pos]) && NoBacktrack(prefix + [t.pos])
    requires prefix != [] ==> prefix[|prefix| - 1] == parent
    ensures forall p :: p in BranchPaths(t, prefix, e) ==> GoodPath(m, prefix + [t.pos], e, p)
    decreases t, 1
  {
    var p := prefix + [t.pos];
    forall k | 0 <= k < |t.children|
      ensures IsWalk(m, p + [t.children[k].pos]) && NoBacktrack(p + [t.children[k].pos])
    {
      ExtendWalk(m, parent, t, prefix, k);
    }
    BranchPathsAllAreWalks(m, t, t.children, p, e);
    assert p[..|p|] == p;
  }

  lemma {:induction false} BranchPathsAllAreWalks(m: Maze, node: Tree, ts: seq<Tree>, prefix: seq<Pos>, e: Pos)
    requires Covers(m) && |prefix| > 0 && prefix[|prefix| - 1] == node.pos
    requires ts <= node.children
    requires forall k :: 0 <= k < |ts| ==> Explores(m, node.pos, ts[k])
    requires forall k :: 0 <= k < |ts| ==> IsWalk(m, prefix + [ts[k].pos]) && NoBacktrack(prefix + [ts[k].pos])
    ensures forall p :: p in BranchPathsAll(ts, prefix, e) ==> GoodPath(m, prefix, e, p)
    decreases node, 0, |ts|
  {
    if ts != [] {
      var n := |ts| - 1;
      BranchPathsAllAreWalks(m, node, ts[..n], prefix, e);
      BranchPathsAreWalks(m, prefix[|prefix| - 1], ts[n], prefix, e);
      forall p | p in BranchPaths(ts[n], prefix, e)
        ensures GoodPath(m, prefix, e, p)
      {
        assert GoodPath(m, prefix + [ts[n].pos], e, p);
        assert p[..|prefix|] == p[..|prefix| + 1][..|prefix|];
        assert (prefix + [ts[n].pos])[..|prefix|] == prefix;
      }
    }
  }

  /** A 4-connected walk covers at least the Manhattan distance between its ends. */
  lemma {:induction false} WalkLength(m: Maze, p: seq<Pos>)
    requires Covers(m) && |p| > 0 && IsWalk(m, p)
    ensures Manhattan(p[0], p[|p| - 1]) <= |p| - 1
  {
    if |p| > 1 {
      var q := p[..|p| - 1];
      assert IsWalk(m, q) by {
        forall k: nat | k + 1 < |q|
          ensures WalkStep(m, q, k)
        {
          assert WalkStep(m, p, k);
          assert q[k] == p[k] && q[k + 1] == p[k + 1];
        }
      }
      WalkLength(m, q);
      assert WalkStep(m, p, |p| - 2);
    }
  }

  /** p is a walk through open cells from a to b (the start cell itself need not be open). */
  ghost predicate WalkBetween(m: Maze, a: Pos, b: Pos, p: seq<Pos>)
    requires Covers(m)
  {
    |p| > 0 && p[0] == a && p[|p| - 1] == b && IsWalk(m, p)
  }

  /** The maze has a solution from a to b: some walk through open cells joins them. */
  ghost predicate Reachable(m: Maze, a: Pos, b: Pos)
    requires Covers(m)
  {
    exists p :: WalkBetween(m, a, b, p)
  }

  /** Cutting out a step there and straight back (p[k+1], p[k+2] with p[k+2] == p[k]) leaves a walk. */
  lemma CutBacktrack(m: Maze, p: seq<Pos>, k: nat)
    requires Covers(m) && IsWalk(m, p) && k + 2 < |p| && p[k + 2] == p[k]
    ensures IsWalk(m, p[..k + 1] + p[k + 3..])
  {
    var r := p[..k + 1] + p[k + 3..];
    forall i: nat | i + 1 < |r|
      ensures WalkStep(m, r, i)
    {
      if i < k {
        assert WalkStep(m, p, i);
        assert r[i] == p[i] && r[i + 1] == p[i + 1];
      } else if i == k {
        assert WalkStep(m, p, k + 2);
        assert r[i] == p[k + 2] && r[i + 1] == p[k + 3];
      } else {
        assert WalkStep(m, p, i + 2);
        assert r[i] == p[i + 2] && r[i + 1] == p[i + 3];
      }
    }
  }

  /** Every walk can be shortened to one with the same ends that never steps straight back. */
  lemma {:induction false} DropBacktracks(m: Maze, p: seq<Pos>) returns (q: seq<Pos>)
    requires Covers(m) && |p| > 0 && IsWalk(m, p)
    ensures WalkBetween(m, p[0], p[|p| - 1], q) && NoBacktrack(q) && |q| <= |p|
    decreases |p|
  {
    if NoBacktrack(p) {
      q := p;
    } else {
      var k :| 0 <= k < |p| - 2 && p[k + 2] == p[k];
      var r := p[..k + 1] + p[k + 3..];
      CutBacktrack(m, p, k);
      assert r[0] == p[0];
      assert r[|r| - 1] == p[|p| - 1] by {
        if k + 3 == |p| {
          assert r[|r| - 1] == p[k];
        } else {
          assert r[|r| - 1] == p[k + 3..][|p| - k - 4];
        }
      }
      q := DropBacktracks(m, r);
    }
  }

  /** The four candidates of p are exactly the cells 4-adjacent to it. */
  lemma CandidatesAreAdjacent(p: Pos, q: Pos)
    ensures q in Candidates(p) <==> Adjacent(p, q)
  {
  }

  lemma {:induction false} BranchPathsAllContains(ts: seq<Tree>, k: nat, prefix: seq<Pos>, e: Pos, x: seq<Pos>)
    requires k < |ts| && x in BranchPaths(ts[k], prefix, e)
    ensures x in BranchPathsAll(ts, prefix, e)
    decreases |ts|
  {
    var n := |ts| - 1;
    if k < n {
      assert ts[..n][k] == ts[k];
      BranchPathsAllContains(ts[..n], k, prefix, e, x);
    }
  }

  /** Dropping the first cell of a walk that never steps straight back keeps both properties. */
  lemma WalkTail(m: Maze, p: seq<Pos>)
    requires Covers(m) && |p| >= 2 && IsWalk(m, p) && NoBacktrack(p)
    ensures IsWalk(m, p[1..]) && NoBacktrack(p[1..])
    ensures |p| >= 3 ==> p[1..][1] != p[0]
  {
    var rest := p[1..];
    forall i: nat | i + 1 < |rest|
      ensures WalkStep(m, rest, i)
    {
      assert WalkStep(m, p, i + 1);
      assert rest[i] == p[i + 1] && rest[i + 1] == p[i + 2];
    }
    forall i | 0 <= i < |rest| - 2
      ensures rest[i + 2] != rest[i]
    {
      assert p[i + 3] != p[i + 1];
    }
  }

  /** An admissible neighbour of an explored node is the position of one of its children. */
  lemma ChildAt(m: Maze, parent: Pos, t: Tree, q: Pos) returns (k: nat)
    requires Covers(m) && Explores(m, parent, t)
    requires Adjacent(t.pos, q) && q != parent && InBounds(m, q) && Passable(m, q)
    ensures k < |t.children| && t.children[k].pos == q && Explores(m, t.pos, t.children[k])
  {
    CandidatesAreAdjacent(t.pos, q);
    assert q in Keep(m, parent, Candidates(t.pos));
    var ps := Positions(t.children);
    k :| 0 <= k < |ps| && ps[k] == q;
  }

  lemma SplitFirst(prefix: seq<Pos>, p: seq<Pos>)
    requires |p| > 0
    ensures (prefix + [p[0]]) + p[1..] == prefix + p
  {
  }

  /** A path recorded under child k of t is recorded under t. */
  lemma ChildPathIsBranchPath(t: Tree, k: nat, prefix: seq<Pos>, e: Pos, x: seq<Pos>)
    requires k < |t.children| && x in BranchPaths(t.children[k], prefix + [t.pos], e)
    ensures x in BranchPaths(t, prefix, e)
  {
    BranchPathsAllContains(t.children, k, prefix + [t.pos], e, x);
  }

  /**
   * Completeness of the exploration: an open walk that starts at a node, never
   * steps straight back and leaves it other than towards its parent ends at a
   * node of the subtree, and the path down to that node is the walk itself.
   */
  lemma {:induction false} WalkInTree(m: Maze, parent: Pos, t: Tree, prefix: seq<Pos>, p: seq<Pos>)
    requires Covers(m) && Explores(m, parent, t)
    requires |p| > 0 && p[0] == t.pos && IsWalk(m, p) && NoBacktrack(p) && (|p| >= 2 ==> p[1] != parent)
    ensures prefix + p in BranchPaths(t, prefix, p[|p| - 1])
    decreases |p|
  {
    if |p| == 1 {
      assert prefix + p == prefix + [t.pos];
    } else {
      assert WalkStep(m, p, 0);
      var k := ChildAt(m, parent, t, p[1]);
      WalkTail(m, p);
      WalkInTree(m, t.pos, t.children[k], prefix + [t.pos], p[1..]);
      SplitFirst(prefix, p);
      ChildPathIsBranchPath(t, k, prefix, p[|p| - 1], prefix + p);
    }
  }

  /** From the root, whose parent (-1, -1) lies outside the grid, every such walk is a per-branch path. */
  lemma TreeHasEveryWalk(m: Maze, t: Tree, e: Pos, p: seq<Pos>)
    requires Covers(m) && Explores(m, Sentinel, t)
    requires WalkBetween(m, t.pos, e, p) && NoBacktrack(p)
    ensures p in BranchPaths(t, [], e)
  {
    if |p| >= 2 {
      assert WalkStep(m, p, 0);
    }
    WalkInTree(m, Sentinel, t, [], p);
    assert [] + p == p;
  }

  /** On the tree explored from its root, end is reachable from the root iff some node of the tree is at end. */
  lemma ReachableIffOccurs(m: Maze, t: Tree, e: Pos)
    requires Covers(m) && Explores(m, Sentinel, t)
    ensures Reachable(m, t.pos, e) <==> Occurrences(t, e) > 0
  {
    BranchPathsCount(t, [], e);
    if Reachable(m, t.pos, e) {
      var p :| WalkBetween(m, t.pos, e, p);
      var q := DropBacktracks(m, p);
      TreeHasEveryWalk(m, t, e, q);
    }
    if Occurrences(t, e) > 0 {
      var p := BranchPaths(t, [], e)[0];
      assert [] + [t.pos] == [t.pos];
      BranchPathsAreWalks(m, Sentinel, t, [], e);
      assert GoodPath(m, [t.pos], e, p);
      assert p[..1] == [t.pos];
      assert WalkBetween(m, t.pos, e, p);
    }
  }

  /** From the tree Node builds at `start`, end is reachable iff the pre-order listing holds it. */
  lemma ReachableIffListed(m: Maze, start: Pos, e: Pos, fuel: nat)
    requires Covers(m) && Build(m, Sentinel, start, fuel).Some?
    ensures var t := Build(m, Sentinel, start, fuel).value;
            t.pos == start && (Occurrences(t, e) == 0 <==> e !in PreOrder(t)) &&
            (Reachable(m, start, e) <==> Occurrences(t, e) > 0)
  {
    var t := Build(m, Sentinel, start, fuel).value;
    NoOccurrenceIffUnlisted(t, e);
    BuildExplores(m, Sentinel, start, fuel);
    ReachableIffOccurs(m, t, e);
  }

  /** A per-branch path no longer than any other per-branch path is no longer than any walk at all. */
  lemma ShortestBranchIsShortestWalk(m: Maze, t: Tree, e: Pos, x: seq<Pos>)
    requires Covers(m) && Explores(m, Sentinel, t)
    requires x in BranchPaths(t, [], e) && forall p :: p in BranchPaths(t, [], e) ==> |x| <= |p|
    ensures WalkBetween(m, t.pos, e, x) && NoBacktrack(x)
    ensures forall p :: WalkBetween(m, t.pos, e, p) ==> |x| <= |p|
  {
    assert [] + [t.pos] == [t.pos];
    BranchPathsAreWalks(m, Sentinel, t, [], e);
    assert GoodPath(m, [t.pos], e, x);
    assert x[..1] == [t.pos];
    forall p | WalkBetween(m, t.pos, e, p)
      ensures |x| <= |p|
    {
      var q := DropBacktracks(m, p);
      TreeHasEveryWalk(m, t, e, q);
    }
  }
}
