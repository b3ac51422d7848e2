/**
 * The deterministic logic of main.py's CaveGenerator: the flat row-major
 * grid of cells (true = alive), its coordinate conversions, one
 * cellular-automaton generation step, the blob maps and the colour
 * composite. Every random draw is replaced by a boolean coin given as input.
 */
module Cave {
  import opened Wrappers
  import MazeTree

  /** An RGBA tuple. */
  datatype Colour = Colour(r: int, g: int, b: int, a: int)

  const Black := Colour(0, 0, 0, 255)
  const White := Colour(255, 255, 255, 255)

  /** Python's a // b, which rounds toward negative infinity. */
  function FloorDiv(a: int, b: int): int
    requires b != 0
  {
    if b > 0 then a / b else (-a) / (-b)
  }

  /** Python's a % b, which takes the sign of b. */
  function FloorMod(a: int, b: int): int
    requires b != 0
  {
    a - b * FloorDiv(a, b)
  }

  /** The remainder lies between 0 and b, on b's side of 0, as in Python. */
  lemma FloorModRange(a: int, b: int)
    requires b != 0
    ensures b > 0 ==> 0 <= FloorMod(a, b) < b
    ensures b < 0 ==> b < FloorMod(a, b) <= 0
  {
    if b < 0 {
      assert -a == (-b) * ((-a) / (-b)) + (-a) % (-b);
    }
  }

  /** Floor division is the only quotient whose remainder lies on b's side. */
  lemma FloorDivUnique(a: int, b: int, q: int)
    requires b != 0
    requires b > 0 ==> 0 <= a - b * q < b
    requires b < 0 ==> b < a - b * q <= 0
    ensures FloorDiv(a, b) == q
  {
    FloorModRange(a, b);
    var d := FloorDiv(a, b) - q;
    assert b * d == (a - b * q) - FloorMod(a, b);
    if d >= 1 {
      if b > 0 { MulAtLeast(b, d); } else { MulAtLeast(-b, d); }
    } else if d <= -1 {
      if b > 0 { MulAtLeast(b, -d); } else { MulAtLeast(-b, -d); }
    }
  }

  lemma MulAtLeast(b: int, d: int)
    requires b > 0 && d >= 1
    ensures b * d >= b
  {
  }

  /** cell_index: the flat index of (x, y). */
  function CellIndex(w: int, x: int, y: int): (r: int)
    ensures w > 0 && 0 <= x < w ==> y * w <= r < y * w + w
  {
    y * w + x
  }

  /** cell_position: the (x, y) of a flat index, with Python's % and //. */
  function CellPosition(w: int, index: int): (r: (int, int))
    requires w != 0
    ensures r.1 * w + r.0 == index
    ensures w > 0 ==> 0 <= r.0 < w
    ensures w < 0 ==> w < r.0 <= 0
  {
    FloorModRange(index, w);
    (FloorMod(index, w), FloorDiv(index, w))
  }

  /** cell_index undoes cell_position for every index, negative ones included. */
  lemma IndexOfPosition(w: int, index: int)
    requires w != 0
    ensures CellIndex(w, CellPosition(w, index).0, CellPosition(w, index).1) == index
  {
  }

  /** cell_position undoes cell_index for every column of the row's range. */
  lemma PositionOfIndex(w: int, x: int, y: int)
    requires (w > 0 && 0 <= x < w) || (w < 0 && w < x <= 0)
    ensures CellPosition(w, CellIndex(w, x, y)) == (x, y)
  {
    assert CellIndex(w, x, y) - w * y == x;
    FloorDivUnique(CellIndex(w, x, y), w, y);
  }

  /** The number of cells init_cave creates: range(w * h) is empty when w * h <= 0. */
  function CellCount(w: int, h: int): nat
  {
    if w * h > 0 then w * h else 0
  }

  /** __pixel_colour: black for an alive cell, white for a dead one. */
  function PixelColour(cell: bool): (r: Colour)
    ensures r.a == 255
    ensures r == Black <==> cell
    ensures r == White <==> !cell
  {
    if cell then Black else White
  }

  /** The generator's parameters. */
  datatype Rules = Rules(starvationLimit: int, overpopLimit: int, birthNumber: int)

  /** generator_step visits 1 <= x < w - 1, 1 <= y < h - 1. */
  predicate Interior(w: int, h: int, x: int, y: int)
  {
    1 <= x < w - 1 && 1 <= y < h - 1
  }

  /** The eight neighbour indices, in the order generator_step lists them. */
  function NeighbourIndices(w: int, x: int, y: int): seq<int>
  {
    [CellIndex(w, x - 1, y), CellIndex(w, x + 1, y), CellIndex(w, x, y - 1), CellIndex(w, x, y + 1),
     CellIndex(w, x - 1, y - 1), CellIndex(w, x - 1, y + 1), CellIndex(w, x + 1, y + 1), CellIndex(w, x + 1, y - 1)]
  }

  predicate IndicesIn(c: seq<bool>, idx: seq<int>)
  {
    forall k :: 0 <= k < |idx| ==> 0 <= idx[k] < |c|
  }

  /** How many of the cells at idx are alive. */
  function AliveCount(c: seq<bool>, idx: seq<int>): (n: nat)
    requires IndicesIn(c, idx)
    ensures n <= |idx|
  {
    if idx == [] then 0
    else AliveCount(c, idx[..|idx| - 1]) + (if c[idx[|idx| - 1]] then 1 else 0)
  }

  /** All eight neighbours of an interior cell lie inside a grid of w * h cells. */
  lemma NeighboursInRange(w: int, h: int, c: seq<bool>, x: int, y: int)
    requires |c| == CellCount(w, h) && Interior(w, h, x, y)
    ensures IndicesIn(c, NeighbourIndices(w, x, y)) && 0 <= CellIndex(w, x, y) < |c|
  {
    MazeTree.MulMonotone(0, y - 1, w);
    MazeTree.MulMonotone(y + 1, h - 1, w);
    assert (h - 1) * w + w == w * h;
    assert CellCount(w, h) == w * h;
  }

  /** The alive-neighbour count of an interior cell, taken from grid c. */
  function NeighbourCount(w: int, h: int, c: seq<bool>, x: int, y: int): nat
    requires |c| == CellCount(w, h) && Interior(w, h, x, y)
  {
    NeighboursInRange(w, h, c, x, y);
    AliveCount(c, NeighbourIndices(w, x, y))
  }

  /** The state an interior cell takes, given its state and alive-neighbour count. */
  function NextState(rules: Rules, alive: bool, n: int): bool
  {
    if alive then !(n < rules.starvationLimit || n > rules.overpopLimit) else n == rules.birthNumber
  }

  /** Cell i after one step: the rule on interior cells, unchanged elsewhere. */
  function StepCell(w: int, h: int, rules: Rules, c: seq<bool>, i: int): bool
    requires |c| == CellCount(w, h) && 0 <= i < |c|
  {
    var (x, y) := CellPosition(w, i);
    if Interior(w, h, x, y) then NextState(rules, c[i], NeighbourCount(w, h, c, x, y)) else c[i]
  }

  /** The grid after one generator step, every count taken from c itself. */
  function Step(w: int, h: int, rules: Rules, c: seq<bool>): (r: seq<bool>)
    requires |c| == CellCount(w, h)
    ensures |r| == |c|
  {
    seq(|c|, i requires 0 <= i < |c| => StepCell(w, h, rules, c, i))
  }

  /** A cell of the grid on its border keeps its state. */
  lemma StepKeepsBorder(w: int, h: int, rules: Rules, c: seq<bool>, x: int, y: int)
    requires |c| == CellCount(w, h) && 0 <= x < w && 0 <= y < h && !Interior(w, h, x, y)
    ensures 0 <= CellIndex(w, x, y) < |c|
    ensures Step(w, h, rules, c)[CellIndex(w, x, y)] == c[CellIndex(w, x, y)]
  {
    MazeTree.MulMonotone(0, y, w);
    MazeTree.MulMonotone(y, h - 1, w);
    assert (h - 1) * w + w == w * h;
    PositionOfIndex(w, x, y);
  }

  /**
   * An interior cell has between 0 and 8 alive neighbours; alive, it stays
   * alive iff that count is within the starvation and overpopulation limits;
   * dead, it comes alive iff the count equals the birth number.
   */
  lemma StepInteriorRule(w: int, h: int, rules: Rules, c: seq<bool>, x: int, y: int)
    requires |c| == CellCount(w, h) && Interior(w, h, x, y)
    ensures 0 <= CellIndex(w, x, y) < |c| && NeighbourCount(w, h, c, x, y) <= 8
    ensures var i, n := CellIndex(w, x, y), NeighbourCount(w, h, c, x, y);
            (c[i] ==> (Step(w, h, rules, c)[i] <==> rules.starvationLimit <= n <= rules.overpopLimit)) &&
            (!c[i] ==> (Step(w, h, rules, c)[i] <==> n == rules.birthNumber))
  {
    NeighboursInRange(w, h, c, x, y);
    PositionOfIndex(w, x, y);
  }

  /** A non-interior cell i of row y keeps its state. */
  lemma RowCell(w: int, h: int, rules: Rules, c: seq<bool>, y: int, i: int)
    requires |c| == CellCount(w, h) && 0 <= i < |c| && w > 0
    requires y * w <= i < (y + 1) * w && !Interior(w, h, i - y * w, y)
    ensures Step(w, h, rules, c)[i] == c[i]
  {
    PositionOfIndex(w, i - y * w, y);
    assert CellIndex(w, i - y * w, y) == i;
  }

  /** The number of true entries. */
  function Marked(s: seq<bool>): nat
  {
    multiset(s)[true]
  }

  lemma MarkedAppend(s: seq<bool>, b: bool)
    ensures Marked(s + [b]) == Marked(s) + if b then 1 else 0
  {
    assert multiset(s + [b]) == multiset(s) + multiset{b};
  }

  /** Cell i may take a blob in this pass: it is in the wanted state and its coin came up. */
  predicate Eligible(cave: seq<bool>, appearOn: bool, coins: seq<bool>, i: int)
    requires 0 <= i < |cave| && |coins| == |cave|
  {
    cave[i] == appearOn && coins[i]
  }

  /** The `number` counter of one pass after its first n cells. */
  function PassCount(cave: seq<bool>, appearOn: bool, coins: seq<bool>, maxNumber: Option<int>, n: nat): nat
    requires n <= |cave| && |coins| == |cave|
  {
    if n == 0 then 0
    else
      var before := PassCount(cave, appearOn, coins, maxNumber, n - 1);
      before + if Eligible(cave, appearOn, coins, n - 1) && (maxNumber.None? || before < maxNumber.value) then 1 else 0
  }

  /** A pass gives cell i a blob: it is eligible and max_number has not been reached. */
  predicate PassCell(cave: seq<bool>, appearOn: bool, coins: seq<bool>, maxNumber: Option<int>, i: nat)
    requires i < |cave| && |coins| == |cave|
  {
    Eligible(cave, appearOn, coins, i) && (maxNumber.None? || PassCount(cave, appearOn, coins, maxNumber, i) < maxNumber.value)
  }

  /** The map one pass of generate_blobs builds over the first n cells. */
  function PassMap(cave: seq<bool>, appearOn: bool, coins: seq<bool>, maxNumber: Option<int>, n: nat): (r: seq<bool>)
    requires n <= |cave| && |coins| == |cave|
    ensures |r| == n
    ensures forall i :: 0 <= i < n && r[i] ==> cave[i] == appearOn && coins[i]
  {
    seq(n, i requires 0 <= i < n => PassCell(cave, appearOn, coins, maxNumber, i))
  }

  lemma PassMapNext(cave: seq<bool>, appearOn: bool, coins: seq<bool>, maxNumber: Option<int>, n: nat)
    requires n < |cave| && |coins| == |cave|
    ensures PassMap(cave, appearOn, coins, maxNumber, n + 1) ==
              PassMap(cave, appearOn, coins, maxNumber, n) + [PassCell(cave, appearOn, coins, maxNumber, n)]
  {
  }

  /** The counter equals the number of marks in the map. */
  lemma {:induction false} MarkedPassMap(cave: seq<bool>, appearOn: bool, coins: seq<bool>, maxNumber: Option<int>, n: nat)
    requires n <= |cave| && |coins| == |cave|
    ensures Marked(PassMap(cave, appearOn, coins, maxNumber, n)) == PassCount(cave, appearOn, coins, maxNumber, n)
  {
    if n == 0 {
      assert PassMap(cave, appearOn, coins, maxNumber, n) == [];
    } else {
      MarkedPassMap(cave, appearOn, coins, maxNumber, n - 1);
      PassMapNext(cave, appearOn, coins, maxNumber, n - 1);
      MarkedAppend(PassMap(cave, appearOn, coins, maxNumber, n - 1), PassCell(cave, appearOn, coins, maxNumber, n - 1));
    }
  }

  /** The number of eligible cells among the first n. */
  function EligibleCount(cave: seq<bool>, appearOn: bool, coins: seq<bool>, n: nat): nat
    requires n <= |cave| && |coins| == |cave|
  {
    if n == 0 then 0
    else EligibleCount(cave, appearOn, coins, n - 1) + (if Eligible(cave, appearOn, coins, n - 1) then 1 else 0)
  }

  /** How many blobs a pass may place at most: max_number, and never fewer than none. */
  function Cap(maxNumber: Option<int>, count: nat): nat
  {
    match maxNumber
    case None => count
    case Some(m) => if m <= 0 then 0 else if count < m then count else m
  }

  /** The counter stays at the cap of the eligible cells seen so far. */
  lemma {:induction false} PassCountIsCap(cave: seq<bool>, appearOn: bool, coins: seq<bool>, maxNumber: Option<int>, n: nat)
    requires n <= |cave| && |coins| == |cave|
    ensures PassCount(cave, appearOn, coins, maxNumber, n) == Cap(maxNumber, EligibleCount(cave, appearOn, coins, n))
  {
    if n > 0 {
      PassCountIsCap(cave, appearOn, coins, maxNumber, n - 1);
    }
  }

  /** Cell i is eligible and fewer than max_number eligible cells come before it. */
  predicate AmongFirst(cave: seq<bool>, appearOn: bool, coins: seq<bool>, maxNumber: Option<int>, i: nat)
    requires i < |cave| && |coins| == |cave|
  {
    Eligible(cave, appearOn, coins, i) && (maxNumber.None? || EligibleCount(cave, appearOn, coins, i) < maxNumber.value)
  }

  /**
   * A pass marks exactly the first max_number eligible cells: cell i is
   * marked iff it is eligible and fewer than max_number eligible cells come
   * before it; so it marks min(eligible, max_number) cells in all.
   */
  lemma PassMapIsFirstEligible(cave: seq<bool>, appearOn: bool, coins: seq<bool>, maxNumber: Option<int>, n: nat)
    requires n <= |cave| && |coins| == |cave|
    ensures Marked(PassMap(cave, appearOn, coins, maxNumber, n)) == Cap(maxNumber, EligibleCount(cave, appearOn, coins, n))
    ensures forall i :: 0 <= i < n ==> PassMap(cave, appearOn, coins, maxNumber, n)[i] == AmongFirst(cave, appearOn, coins, maxNumber, i)
  {
    MarkedPassMap(cave, appearOn, coins, maxNumber, n);
    PassCountIsCap(cave, appearOn, coins, maxNumber, n);
    forall i | 0 <= i < n
      ensures PassMap(cave, appearOn, coins, maxNumber, n)[i] == AmongFirst(cave, appearOn, coins, maxNumber, i)
    {
      PassCountIsCap(cave, appearOn, coins, maxNumber, i);
    }
  }

  /** A pass marks only cells in the wanted state, and never more than max_number. */
  lemma PassMapBounds(cave: seq<bool>, appearOn: bool, coins: seq<bool>, maxNumber: Option<int>)
    requires |coins| == |cave|
    ensures var m := PassMap(cave, appearOn, coins, maxNumber, |cave|);
            (forall i :: 0 <= i < |m| && m[i] ==> cave[i] == appearOn) &&
            (maxNumber.Some? ==> Marked(m) <= if maxNumber.value < 0 then 0 else maxNumber.value)
  {
    PassMapIsFirstEligible(cave, appearOn, coins, maxNumber, |cave|);
    var m := PassMap(cave, appearOn, coins, maxNumber, |cave|);
    forall i | 0 <= i < |m| && m[i]
      ensures cave[i] == appearOn
    {
      assert AmongFirst(cave, appearOn, coins, maxNumber, i);
    }
  }

  /** Every coin sequence has one coin per cell. */
  predicate PassesFit(cave: seq<bool>, passes: seq<seq<bool>>)
  {
    forall k :: 0 <= k < |passes| ==> |passes[k]| == |cave|
  }

  /** The pass over `coins` marks at least min_number cells. */
  predicate Reaches(cave: seq<bool>, appearOn: bool, coins: seq<bool>, maxNumber: Option<int>, minNumber: int)
    requires |coins| == |cave|
  {
    Marked(PassMap(cave, appearOn, coins, maxNumber, |cave|)) >= minNumber
  }

  /** The `while number < min_number` loop: the first pass marking at least min_number cells. */
  function Retry(cave: seq<bool>, appearOn: bool, passes: seq<seq<bool>>, maxNumber: Option<int>, minNumber: int): (r: Option<seq<bool>>)
    requires PassesFit(cave, passes)
    ensures r.Some? ==> |r.value| == |cave| && Marked(r.value) >= minNumber
    ensures r.Some? ==> forall i :: 0 <= i < |cave| && r.value[i] ==> cave[i] == appearOn
    decreases |passes|
  {
    if passes == [] then None
    else if Reaches(cave, appearOn, passes[0], maxNumber, minNumber) then Some(PassMap(cave, appearOn, passes[0], maxNumber, |cave|))
    else Retry(cave, appearOn, passes[1..], maxNumber, minNumber)
  }

  /** One round of the retry loop, starting at pass k. */
  lemma RetryStep(cave: seq<bool>, appearOn: bool, passes: seq<seq<bool>>, maxNumber: Option<int>, minNumber: int, k: nat)
    requires PassesFit(cave, passes) && k < |passes|
    ensures PassesFit(cave, passes[k..]) && PassesFit(cave, passes[k + 1..])
    ensures Retry(cave, appearOn, passes[k..], maxNumber, minNumber) ==
              if Reaches(cave, appearOn, passes[k], maxNumber, minNumber) then Some(PassMap(cave, appearOn, passes[k], maxNumber, |cave|))
              else Retry(cave, appearOn, passes[k + 1..], maxNumber, minNumber)
  {
    assert passes[k..][0] == passes[k] && passes[k..][1..] == passes[k + 1..];
  }

  /** Retry fails only when no pass reaches min_number. */
  lemma {:induction false} RetryFails(cave: seq<bool>, appearOn: bool, passes: seq<seq<bool>>, maxNumber: Option<int>, minNumber: int)
    requires PassesFit(cave, passes) && Retry(cave, appearOn, passes, maxNumber, minNumber).None?
    ensures forall k :: 0 <= k < |passes| ==> !Reaches(cave, appearOn, passes[k], maxNumber, minNumber)
    decreases |passes|
  {
    if passes != [] {
      var rest := passes[1..];
      RetryFails(cave, appearOn, rest, maxNumber, minNumber);
      forall k | 0 <= k < |passes|
        ensures !Reaches(cave, appearOn, passes[k], maxNumber, minNumber)
      {
        if k > 0 {
          assert passes[k] == rest[k - 1];
        }
      }
    }
  }

  /** When Retry succeeds, it returns the map of the first pass reaching min_number. */
  lemma {:induction false} RetrySucceeds(cave: seq<bool>, appearOn: bool, passes: seq<seq<bool>>, maxNumber: Option<int>, minNumber: int)
    requires PassesFit(cave, passes) && Retry(cave, appearOn, passes, maxNumber, minNumber).Some?
    ensures exists k :: 0 <= k < |passes| && Reaches(cave, appearOn, passes[k], maxNumber, minNumber) &&
              Retry(cave, appearOn, passes, maxNumber, minNumber).value == PassMap(cave, appearOn, passes[k], maxNumber, |cave|) &&
              forall j :: 0 <= j < k ==> !Reaches(cave, appearOn, passes[j], maxNumber, minNumber)
    decreases |passes|
  {
    var m := Retry(cave, appearOn, passes, maxNumber, minNumber).value;
    if Reaches(cave, appearOn, passes[0], maxNumber, minNumber) {
      assert m == PassMap(cave, appearOn, passes[0], maxNumber, |cave|);
    } else {
      var rest := passes[1..];
      RetrySucceeds(cave, appearOn, rest, maxNumber, minNumber);
      var k :| 0 <= k < |rest| && Reaches(cave, appearOn, rest[k], maxNumber, minNumber) &&
               m == PassMap(cave, appearOn, rest[k], maxNumber, |cave|) &&
               forall j :: 0 <= j < k ==> !Reaches(cave, appearOn, rest[j], maxNumber, minNumber);
      assert passes[k + 1] == rest[k];
      forall j | 0 <= j < k + 1
        ensures !Reaches(cave, appearOn, passes[j], maxNumber, minNumber)
      {
        if j > 0 {
          assert passes[j] == rest[j - 1];
        }
      }
    }
  }

  /** Retry succeeds iff some pass reaches min_number. */
  lemma RetryFindsFirst(cave: seq<bool>, appearOn: bool, passes: seq<seq<bool>>, maxNumber: Option<int>, minNumber: int)
    requires PassesFit(cave, passes)
    ensures Retry(cave, appearOn, passes, maxNumber, minNumber).Some? <==>
              exists k :: 0 <= k < |passes| && Reaches(cave, appearOn, passes[k], maxNumber, minNumber)
  {
    if Retry(cave, appearOn, passes, maxNumber, minNumber).Some? {
      RetrySucceeds(cave, appearOn, passes, maxNumber, minNumber);
    } else {
      RetryFails(cave, appearOn, passes, maxNumber, minNumber);
    }
  }

  /**
   * The map generate_blobs appends, as written: one pass without
   * min_number; with it, no pass at all when min_number <= 0 (an empty
   * list), else the first pass reaching min_number. None when the given
   * passes run out first.
   */
  function BlobMap(cave: seq<bool>, appearOn: bool, passes: seq<seq<bool>>, maxNumber: Option<int>, minNumber: Option<int>): (r: Option<seq<bool>>)
    requires PassesFit(cave, passes)
    ensures r.Some? ==> r.value == [] || |r.value| == |cave|
    ensures r.Some? ==> forall i :: 0 <= i < |r.value| && i < |cave| && r.value[i] ==> cave[i] == appearOn
    ensures r.None? ==> passes == [] || minNumber.Some?
  {
    match minNumber
    case None => if passes == [] then None else Some(PassMap(cave, appearOn, passes[0], maxNumber, |cave|))
    case Some(min) => if min <= 0 then Some([]) else Retry(cave, appearOn, passes, maxNumber, min)
  }

  /**
   * The map generate_blobs appends marks only cells in the wanted state, at
   * most max_number and at least min_number of them, and covers the whole
   * cave unless min_number <= 0.
   */
  lemma BlobMapProperties(cave: seq<bool>, appearOn: bool, passes: seq<seq<bool>>, maxNumber: Option<int>, minNumber: Option<int>)
    requires PassesFit(cave, passes) && BlobMap(cave, appearOn, passes, maxNumber, minNumber).Some?
    ensures var m := BlobMap(cave, appearOn, passes, maxNumber, minNumber).value;
            (minNumber.None? || minNumber.value > 0 ==> |m| == |cave|) &&
            (forall i :: 0 <= i < |m| && m[i] ==> cave[i] == appearOn) &&
            (maxNumber.Some? ==> Marked(m) <= if maxNumber.value < 0 then 0 else maxNumber.value) &&
            (minNumber.Some? ==> Marked(m) >= minNumber.value)
  {
    var m := BlobMap(cave, appearOn, passes, maxNumber, minNumber).value;
    if minNumber.None? {
      PassMapBounds(cave, appearOn, passes[0], maxNumber);
    } else if minNumber.value > 0 {
      RetrySucceeds(cave, appearOn, passes, maxNumber, minNumber.value);
      var k :| 0 <= k < |passes| && Reaches(cave, appearOn, passes[k], maxNumber, minNumber.value) &&
               m == PassMap(cave, appearOn, passes[k], maxNumber, |cave|);
      PassMapBounds(cave, appearOn, passes[k], maxNumber);
    }
  }

  /** The loop evidently meant: run at least one pass, then retry while below min_number. */
  function AtLeastOnePassMap(cave: seq<bool>, appearOn: bool, passes: seq<seq<bool>>, maxNumber: Option<int>, minNumber: Option<int>): Option<seq<bool>>
    requires PassesFit(cave, passes)
  {
    match minNumber
    case None => if passes == [] then None else Some(PassMap(cave, appearOn, passes[0], maxNumber, |cave|))
    case Some(min) => Retry(cave, appearOn, passes, maxNumber, min)
  }

  /** The corrected map always covers the whole cave, and keeps every other promise. */
  lemma AtLeastOnePassMapProperties(cave: seq<bool>, appearOn: bool, passes: seq<seq<bool>>, maxNumber: Option<int>, minNumber: Option<int>)
    requires PassesFit(cave, passes) && AtLeastOnePassMap(cave, appearOn, passes, maxNumber, minNumber).Some?
    ensures var m := AtLeastOnePassMap(cave, appearOn, passes, maxNumber, minNumber).value;
            |m| == |cave| &&
            (forall i :: 0 <= i < |m| && m[i] ==> cave[i] == appearOn) &&
            (maxNumber.Some? ==> Marked(m) <= if maxNumber.value < 0 then 0 else maxNumber.value) &&
            (minNumber.Some? ==> Marked(m) >= minNumber.value)
  {
    var m := AtLeastOnePassMap(cave, appearOn, passes, maxNumber, minNumber).value;
    if minNumber.None? {
      PassMapBounds(cave, appearOn, passes[0], maxNumber);
    } else {
      RetrySucceeds(cave, appearOn, passes, maxNumber, minNumber.value);
      var k :| 0 <= k < |passes| && Reaches(cave, appearOn, passes[k], maxNumber, minNumber.value) &&
               m == PassMap(cave, appearOn, passes[k], maxNumber, |cave|);
      PassMapBounds(cave, appearOn, passes[k], maxNumber);
    }
  }

  /** Every blob map has an entry for cell i. */
  predicate MapsReach(blobs: seq<seq<bool>>, n: nat, i: int)
    requires n <= |blobs|
  {
    forall b :: 0 <= b < n ==> i < |blobs[b]|
  }

  /**
   * Pixel i after the first n blob maps are applied in order: the colour of
   * the highest-indexed of them marked at i, else the cell's own colour.
   */
  function TopColour(cell: bool, blobs: seq<seq<bool>>, colours: seq<Colour>, i: nat, n: nat): (r: Colour)
    requires n <= |blobs| == |colours| && MapsReach(blobs, n, i)
    ensures r == PixelColour(cell) || exists b :: 0 <= b < n && r == colours[b]
  {
    if n == 0 then PixelColour(cell)
    else if blobs[n - 1][i] then colours[n - 1]
    else TopColour(cell, blobs, colours, i, n - 1)
  }

  lemma {:induction false} TopColourUnmarked(cell: bool, blobs: seq<seq<bool>>, colours: seq<Colour>, i: nat, n: nat)
    requires n <= |blobs| == |colours| && MapsReach(blobs, n, i)
    requires forall b :: 0 <= b < n ==> !blobs[b][i]
    ensures TopColour(cell, blobs, colours, i, n) == PixelColour(cell)
  {
    if n > 0 {
      assert !blobs[n - 1][i];
      TopColourUnmarked(cell, blobs, colours, i, n - 1);
    }
  }

  lemma {:induction false} TopColourMarked(cell: bool, blobs: seq<seq<bool>>, colours: seq<Colour>, i: nat, n: nat, b: nat)
    requires n <= |blobs| == |colours| && MapsReach(blobs, n, i)
    requires b < n && blobs[b][i] && forall b' :: b < b' < n ==> !blobs[b'][i]
    ensures TopColour(cell, blobs, colours, i, n) == colours[b]
  {
    if b < n - 1 {
      assert !blobs[n - 1][i];
      TopColourMarked(cell, blobs, colours, i, n - 1, b);
    }
  }

  /**
   * The pixel is the colour of the highest-indexed map marked at i, and the
   * cell's own colour when no map is marked there.
   */
  lemma {:induction false} TopColourIsHighest(cell: bool, blobs: seq<seq<bool>>, colours: seq<Colour>, i: nat, n: nat)
    requires n <= |blobs| == |colours| && MapsReach(blobs, n, i)
    ensures (forall b :: 0 <= b < n ==> !blobs[b][i]) ==> TopColour(cell, blobs, colours, i, n) == PixelColour(cell)
    ensures forall b :: 0 <= b < n && blobs[b][i] && (forall b' :: b < b' < n ==> !blobs[b'][i]) ==>
              TopColour(cell, blobs, colours, i, n) == colours[b]
  {
    if forall b :: 0 <= b < n ==> !blobs[b][i] {
      TopColourUnmarked(cell, blobs, colours, i, n);
    }
    forall b | 0 <= b < n && blobs[b][i] && (forall b' :: b < b' < n ==> !blobs[b'][i])
      ensures TopColour(cell, blobs, colours, i, n) == colours[b]
    {
      TopColourMarked(cell, blobs, colours, i, n, b);
    }
  }

  /** The result of the compositing loop: an image, or the IndexError a short blob map raises. */
  datatype Render = Pixels(data: seq<Colour>) | IndexErrorRaised

  class CaveGenerator {
    const w: int
    const h: int
    const starvationLimit: int
    const overpopLimit: int
    const birthNumber: int
    var cave: seq<bool>
    var blobs: seq<seq<bool>>
    var blobColours: seq<Colour>

    /** The grid has w * h cells and each blob map has its colour. */
    ghost predicate Valid()
      reads this
    {
      |cave| == CellCount(w, h) && |blobs| == |blobColours|
    }

    /** Every blob map covers the whole grid, so compositing cannot fail. */
    ghost predicate Renderable()
      reads this
    {
      forall b :: 0 <= b < |blobs| ==> |blobs[b]| == |cave|
    }

    function Params(): Rules
    {
      Rules(starvationLimit, overpopLimit, birthNumber)
    }

    /** CaveGenerator(w, h, chance, ...): no blobs yet, the grid drawn from `coins`. */
    constructor (w: int, h: int, coins: seq<bool>, starvationLimit: int, overpopLimit: int, birthNumber: int)
      requires |coins| == CellCount(w, h)
      ensures Valid() && Renderable()
      ensures this.w == w && this.h == h && Params() == Rules(starvationLimit, overpopLimit, birthNumber)
      ensures cave == coins && blobs == [] && blobColours == []
    {
      this.w := w;
      this.h := h;
      this.starvationLimit := starvationLimit;
      this.overpopLimit := overpopLimit;
      this.birthNumber := birthNumber;
      cave := [];
      blobs := [];
      blobColours := [];
      new;
      InitCave(coins);
    }

    /** init_cave: one cell per index of range(w * h), alive iff its coin came up. */
    method InitCave(coins: seq<bool>)
      requires |coins| == CellCount(w, h)
      modifies this`cave
      ensures cave == coins
    {
      cave := [];
      for cell := 0 to CellCount(w, h)
        invariant cave == coins[..cell]
      {
        cave := cave + [coins[cell]];
      }
    }

    /** The counting loop of generator_step for the interior cell (x, y). */
    method CountAliveNeighbours(x: int, y: int) returns (aliveNeighbours: int)
      requires Valid() && Interior(w, h, x, y)
      ensures aliveNeighbours == NeighbourCount(w, h, cave, x, y)
    {
      NeighboursInRange(w, h, cave, x, y);
      var neighbourIndices := NeighbourIndices(w, x, y);
      aliveNeighbours := 0;
      for k := 0 to |neighbourIndices|
        invariant aliveNeighbours == AliveCount(cave, neighbourIndices[..k])
      {
        assert neighbourIndices[..k + 1][..k] == neighbourIndices[..k];
        if cave[neighbourIndices[k]] {
          aliveNeighbours := aliveNeighbours + 1;
        }
      }
      assert neighbourIndices[..|neighbourIndices|] == neighbourIndices;
    }

    /**
     * generator_step: every interior cell is rewritten in a copy of the grid,
     * counting neighbours in the old grid; then the copy replaces it.
     */
    method GeneratorStep()
      requires Valid()
      modifies this`cave
      ensures Valid() && cave == Step(w, h, Params(), old(cave))
    {
      var resultCave := cave;
      var y := 1;
      FirstRowDone();
      while y < h - 1
        invariant y >= 1 && (y == 1 || y <= h - 1)
        invariant cave == old(cave)
        invariant |resultCave| == |cave|
        invariant forall i :: 0 <= i < |cave| ==> resultCave[i] == if i < y * w then Step(w, h, Params(), cave)[i] else cave[i]
      {
        var x := 1;
        RowStart(y);
        while x < w - 1
          invariant x >= 1 && (x == 1 || x <= w - 1)
          invariant cave == old(cave)
          invariant |resultCave| == |cave|
          invariant forall i :: 0 <= i < |cave| ==> resultCave[i] == if i < y * w + x then Step(w, h, Params(), cave)[i] else cave[i]
        {
          var currentIndex := CellIndex(w, x, y);
          var aliveNeighbours := CountAliveNeighbours(x, y);
          StepInteriorRule(w, h, Params(), cave, x, y);
          ghost var before := resultCave;
          if cave[currentIndex] {
            if aliveNeighbours < starvationLimit || aliveNeighbours > overpopLimit {
              resultCave := resultCave[currentIndex := false];
            } else {
              resultCave := resultCave[currentIndex := true];
            }
          } else {
            if aliveNeighbours == birthNumber {
              resultCave := resultCave[currentIndex := true];
            }
          }
          CellDone(y, x, before, resultCave);
          x := x + 1;
        }
        RowDone(y, x, resultCave);
        y := y + 1;
      }
      LastRowsDone(y, resultCave);
      cave := resultCave;
    }

    /** Row 0 lies on the border. */
    lemma FirstRowDone()
      requires Valid()
      ensures forall i :: 0 <= i < |cave| && i < 1 * w ==> Step(w, h, Params(), cave)[i] == cave[i]
    {
      forall i | 0 <= i < |cave| && i < 1 * w
        ensures Step(w, h, Params(), cave)[i] == cave[i]
      {
        RowCell(w, h, Params(), cave, 0, i);
      }
    }

    /** The first cell of an interior row lies on the border. */
    lemma RowStart(y: int)
      requires Valid() && 1 <= y < h - 1
      ensures w <= 0 ==> |cave| == 0
      ensures w > 0 ==> 0 <= y * w < |cave| && Step(w, h, Params(), cave)[y * w] == cave[y * w]
    {
      if w > 0 {
        MazeTree.MulMonotone(0, y, w);
        MazeTree.MulMonotone(y, h - 1, w);
        assert (h - 1) * w + w == w * h;
        RowCell(w, h, Params(), cave, y, y * w);
      }
    }

    /** Rewriting interior cell (x, y) extends the finished prefix by one cell. */
    lemma CellDone(y: int, x: int, before: seq<bool>, after: seq<bool>)
      requires Valid() && 1 <= y < h - 1 && 1 <= x < w - 1
      requires |before| == |cave|
      requires forall i :: 0 <= i < |cave| ==> before[i] == if i < y * w + x then Step(w, h, Params(), cave)[i] else cave[i]
      requires 0 <= y * w + x < |cave| && after == before[y * w + x := Step(w, h, Params(), cave)[y * w + x]]
      ensures |after| == |cave|
      ensures forall i :: 0 <= i < |cave| ==> after[i] == if i < y * w + x + 1 then Step(w, h, Params(), cave)[i] else cave[i]
    {
    }

    /** Once a row's interior is done, its last column and the next row's first are done too. */
    lemma RowDone(y: int, x: int, resultCave: seq<bool>)
      requires Valid() && 1 <= y < h - 1 && x >= 1 && (x == 1 || x <= w - 1) && x >= w - 1
      requires |resultCave| == |cave|
      requires forall i :: 0 <= i < |cave| ==> resultCave[i] == if i < y * w + x then Step(w, h, Params(), cave)[i] else cave[i]
      ensures forall i :: 0 <= i < |cave| ==> resultCave[i] == if i < (y + 1) * w then Step(w, h, Params(), cave)[i] else cave[i]
    {
      forall i | 0 <= i < |cave| && y * w + x <= i < (y + 1) * w
        ensures Step(w, h, Params(), cave)[i] == cave[i]
      {
        RowCell(w, h, Params(), cave, y, i);
      }
    }

    /** After the last interior row every remaining cell is on the border. */
    lemma LastRowsDone(y: int, resultCave: seq<bool>)
      requires Valid() && y >= 1 && (y == 1 || y <= h - 1) && y >= h - 1
      requires |resultCave| == |cave|
      requires forall i :: 0 <= i < |cave| ==> resultCave[i] == if i < y * w then Step(w, h, Params(), cave)[i] else cave[i]
      ensures resultCave == Step(w, h, Params(), cave)
    {
      forall i | 0 <= i < |cave| && i >= y * w
        ensures Step(w, h, Params(), cave)[i] == cave[i]
      {
        if w > 0 {
          MazeTree.MulMonotone(h - 1, y, w);
          assert (h - 1) * w + w == w * h;
          RowCell(w, h, Params(), cave, h - 1, i);
        } else {
          var p := CellPosition(w, i);
          assert !Interior(w, h, p.0, p.1);
        }
      }
    }

    /** One pass over the cells for generate_blobs, with its `number` counter. */
    method BlobPass(coins: seq<bool>, appearOn: bool, maxNumber: Option<int>) returns (blobMap: seq<bool>, number: int)
      requires |coins| == |cave|
      ensures blobMap == PassMap(cave, appearOn, coins, maxNumber, |cave|)
      ensures number == Marked(blobMap)
    {
      blobMap := [];
      number := 0;
      for i := 0 to |cave|
        invariant blobMap == PassMap(cave, appearOn, coins, maxNumber, i)
        invariant number == PassCount(cave, appearOn, coins, maxNumber, i)
      {
        var state := cave[i] == appearOn && coins[i];
        if maxNumber.Some? {
          state := state && number < maxNumber.value;
        }
        PassMapNext(cave, appearOn, coins, maxNumber, i);
        blobMap := blobMap + [state];
        if state {
          number := number + 1;
        }
      }
      MarkedPassMap(cave, appearOn, coins, maxNumber, |cave|);
    }

    /**
     * The `while number < min_number` loop of generate_blobs, passes[k]
     * holding the coins of round k: no round at all when min_number <= 0.
     */
    method RetryWhileBelow(appearOn: bool, maxNumber: Option<int>, minNumber: int, passes: seq<seq<bool>>) returns (blobMap: seq<bool>, number: int)
      requires PassesFit(cave, passes)
      requires minNumber > 0 ==> Retry(cave, appearOn, passes, maxNumber, minNumber).Some?
      ensures minNumber <= 0 ==> blobMap == [] && number == 0
      ensures minNumber > 0 ==> Some(blobMap) == Retry(cave, appearOn, passes, maxNumber, minNumber)
      ensures number == Marked(blobMap)
    {
      blobMap := [];
      number := 0;
      var k := 0;
      assert passes[0..] == passes;
      while number < minNumber
        invariant 0 <= k <= |passes|
        invariant number < minNumber ==> Retry(cave, appearOn, passes[k..], maxNumber, minNumber) == Retry(cave, appearOn, passes, maxNumber, minNumber)
        invariant number >= minNumber && minNumber > 0 ==> Some(blobMap) == Retry(cave, appearOn, passes, maxNumber, minNumber)
        invariant minNumber <= 0 ==> blobMap == [] && number == 0
        invariant number == Marked(blobMap)
        decreases |passes| - k
      {
        assert Retry(cave, appearOn, passes[k..], maxNumber, minNumber).Some?;
        assert k < |passes|;
        RetryStep(cave, appearOn, passes, maxNumber, minNumber, k);
        blobMap, number := BlobPass(passes[k], appearOn, maxNumber);
        k := k + 1;
      }
    }

    /** The same rounds, run at least once: the loop generate_blobs evidently means. */
    method RetryAtLeastOnce(appearOn: bool, maxNumber: Option<int>, minNumber: int, passes: seq<seq<bool>>) returns (blobMap: seq<bool>, number: int)
      requires PassesFit(cave, passes)
      requires Retry(cave, appearOn, passes, maxNumber, minNumber).Some?
      ensures Some(blobMap) == Retry(cave, appearOn, passes, maxNumber, minNumber)
      ensures number == Marked(blobMap)
    {
      assert passes[0..] == passes;
      RetryStep(cave, appearOn, passes, maxNumber, minNumber, 0);
      blobMap, number := BlobPass(passes[0], appearOn, maxNumber);
      var k := 1;
      while number < minNumber
        invariant 1 <= k <= |passes|
        invariant number < minNumber ==> Retry(cave, appearOn, passes[k..], maxNumber, minNumber) == Retry(cave, appearOn, passes, maxNumber, minNumber)
        invariant number >= minNumber ==> Some(blobMap) == Retry(cave, appearOn, passes, maxNumber, minNumber)
        invariant number == Marked(blobMap)
        decreases |passes| - k
      {
        RetryStep(cave, appearOn, passes, maxNumber, minNumber, k);
        blobMap, number := BlobPass(passes[k], appearOn, maxNumber);
        k := k + 1;
      }
    }

    /**
     * generate_blobs, as written: the map of BlobMap and its colour are
     * appended, nothing else changes.
     */
    method GenerateBlobs(colour: Colour, appearOn: bool, maxNumber: Option<int>, minNumber: Option<int>, passes: seq<seq<bool>>)
      requires Valid() && PassesFit(cave, passes)
      requires BlobMap(cave, appearOn, passes, maxNumber, minNumber).Some?
      modifies this`blobs, this`blobColours
      ensures Valid()
      ensures blobs == old(blobs) + [BlobMap(cave, appearOn, passes, maxNumber, minNumber).value]
      ensures blobColours == old(blobColours) + [colour]
    {
      var blobMap: seq<bool>, number: int;
      if minNumber.Some? {
        blobMap, number := RetryWhileBelow(appearOn, maxNumber, minNumber.value, passes);
      } else {
        blobMap, number := BlobPass(passes[0], appearOn, maxNumber);
      }
      blobs := blobs + [blobMap];
      blobColours := blobColours + [colour];
    }

    /** generate_blobs with its retry loop run at least once, so the map always covers the grid. */
    method GenerateBlobsAtLeastOnce(colour: Colour, appearOn: bool, maxNumber: Option<int>, minNumber: Option<int>, passes: seq<seq<bool>>)
      requires Valid() && PassesFit(cave, passes)
      requires AtLeastOnePassMap(cave, appearOn, passes, maxNumber, minNumber).Some?
      modifies this`blobs, this`blobColours
      ensures Valid() && (old(Renderable()) ==> Renderable())
      ensures blobs == old(blobs) + [AtLeastOnePassMap(cave, appearOn, passes, maxNumber, minNumber).value]
      ensures blobColours == old(blobColours) + [colour]
    {
      AtLeastOnePassMapProperties(cave, appearOn, passes, maxNumber, minNumber);
      var blobMap: seq<bool>, number: int;
      if minNumber.Some? {
        blobMap, number := RetryAtLeastOnce(appearOn, maxNumber, minNumber.value, passes);
      } else {
        blobMap, number := BlobPass(passes[0], appearOn, maxNumber);
      }
      blobs := blobs + [blobMap];
      blobColours := blobColours + [colour];
    }

    /**
     * The compositing loop of generate_cave_image: IndexError exactly when
     * some blob map is shorter than the grid; otherwise pixel i is the colour
     * of the highest-indexed blob map marked at i, else the cell's colour.
     */
    method GenerateCaveImage() returns (r: Render)
      requires Valid()
      ensures r.IndexErrorRaised? <==> exists b :: 0 <= b < |blobs| && |blobs[b]| < |cave|
      ensures Renderable() ==> r.Pixels?
      ensures r.Pixels? ==>
                |r.data| == |cave| &&
                forall i :: 0 <= i < |cave| ==> MapsReach(blobs, |blobs|, i) && r.data[i] == TopColour(cave[i], blobs, blobColours, i, |blobs|)
    {
      var pixelData := seq(|cave|, _ => White);
      for i := 0 to |cave|
        invariant |pixelData| == |cave|
        invariant forall b :: 0 <= b < |blobs| ==> i <= |blobs[b]|
        invariant forall j :: 0 <= j < i ==> MapsReach(blobs, |blobs|, j) && pixelData[j] == TopColour(cave[j], blobs, blobColours, j, |blobs|)
      {
        pixelData := pixelData[i := PixelColour(cave[i])];
        for b := 0 to |blobs|
          invariant |pixelData| == |cave|
          invariant MapsReach(blobs, b, i) && pixelData[i] == TopColour(cave[i], blobs, blobColours, i, b)
          invariant forall j :: 0 <= j < i ==> pixelData[j] == TopColour(cave[j], blobs, blobColours, j, |blobs|)
        {
          if i >= |blobs[b]| {
            return IndexErrorRaised;
          }
          if blobs[b][i] {
            pixelData := pixelData[i := blobColours[b]];
          }
        }
      }
      r := Pixels(pixelData);
    }
  }

  /** The colour create_cave gives the end blob. */
  const Purple := Colour(255, 0, 255, 255)

  /**
   * As written, on a one-cell grid: min_number = 0 appends an empty map, so
   * compositing then raises IndexError.
   */
  method ZeroMinimumBreaksImage() returns (r: Render)
    ensures r == IndexErrorRaised
  {
    var generator := new CaveGenerator(1, 1, [false], 1, 3, 2);
    assert BlobMap([false], false, [[true]], None, Some(0)) == Some([]);
    generator.GenerateBlobs(Purple, false, None, Some(0), [[true]]);
    assert |generator.blobs[0]| < |generator.cave|;
    r := generator.GenerateCaveImage();
  }

  /** On the one-cell grid the corrected loop marks the cell, and the mark wins the pixel. */
  lemma OneCellMarked()
    ensures AtLeastOnePassMap([false], false, [[true]], None, Some(0)) == Some([true])
    ensures TopColour(false, [[true]], [Purple], 0, 1) == Purple
  {
    assert PassMap([false], false, [true], None, 1) == [true] by {
      assert PassMap([false], false, [true], None, 0) == [];
    }
    assert Reaches([false], false, [true], None, 0);
    assert Retry([false], false, [[true]], None, 0) == Some(PassMap([false], false, [true], None, 1));
  }

  /** The corrected loop on the same grid and coins paints the cell. */
  method AtLeastOncePaintsCell() returns (r: Render)
    ensures r == Pixels([Purple])
  {
    var generator := new CaveGenerator(1, 1, [false], 1, 3, 2);
    OneCellMarked();
    generator.GenerateBlobsAtLeastOnce(Purple, false, None, Some(0), [[true]]);
    r := generator.GenerateCaveImage();
    assert r.data[0] == TopColour(false, [[true]], [Purple], 0, 1);
  }
}
