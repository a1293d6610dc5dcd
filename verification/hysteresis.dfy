/**
 * What hysteresis linking in CannyEdgeDetector.java computes, stated as
 * graph theory on the pixel grid.
 *
 * The candidate pixels are those classified strong or weak. Two pixels are
 * linked when an 8-connected path of candidate pixels joins them. An edge
 * pixel is a candidate whose connected component holds a strong pixel and
 * has at least `minEdgeSize` pixels. The linking loop and its recursive
 * depth-first search (Canny.dfy) are proved to compute exactly this set,
 * whatever order the strong pixels are visited in.
 */
module Hysteresis {
  import opened CannyIndex

  /** 8-connectivity: two distinct pixels at most one step apart in each direction. */
  predicate Adjacent(a: Cell, b: Cell)
  {
    a != b && -1 <= a.0 - b.0 <= 1 && -1 <= a.1 - b.1 <= 1
  }

  /** A non-empty walk through candidate pixels, each step to an 8-neighbour. */
  ghost predicate IsPath(sw: set<Cell>, p: seq<Cell>)
  {
    && |p| >= 1
    && (forall k :: 0 <= k < |p| ==> p[k] in sw)
    && (forall k :: 0 <= k < |p| - 1 ==> Adjacent(p[k], p[k + 1]))
  }

  /** b can be reached from a through candidate pixels. */
  ghost predicate Reach(sw: set<Cell>, a: Cell, b: Cell)
  {
    exists p :: IsPath(sw, p) && p[0] == a && p[|p| - 1] == b
  }

  /** The 8-connected component of candidate pixels that holds s. */
  ghost function Component(sw: set<Cell>, s: Cell): set<Cell>
  {
    set x | x in sw && Reach(sw, s, x)
  }

  /**
   * Candidates linked to one of the seeds whose component has at least
   * minEdgeSize pixels.
   */
  ghost function Accepted(sw: set<Cell>, seeds: set<Cell>, minEdgeSize: int): set<Cell>
  {
    set x | x in sw && exists s :: s in seeds && Reach(sw, s, x) && |Component(sw, s)| >= minEdgeSize
  }

  /** Every in-grid 8-neighbour of a marked candidate is marked. */
  ghost predicate Closed(sw: set<Cell>, marked: set<Cell>, rows: int, columns: int)
  {
    forall x, y {:trigger Adjacent(x, y)} ::
      x in marked && x in sw && InGrid(rows, columns, y) && Adjacent(x, y) ==> y in marked
  }

  ghost predicate InsideGrid(cells: set<Cell>, rows: int, columns: int)
  {
    forall x :: x in cells ==> InGrid(rows, columns, x)
  }

  ghost predicate Distinct<T>(s: seq<T>)
  {
    forall i, j :: 0 <= i < j < |s| ==> s[i] != s[j]
  }

  // ---------------------------------------------------------------------
  // The pixels of a magnitude grid, classified against two thresholds.

  /** Pixels with magnitude at least `high`. */
  ghost function StrongCells(mag: seq<seq<int>>, high: int): set<Cell>
  {
    set r, c | 0 <= r < |mag| && 0 <= c < |mag[r]| && mag[r][c] >= high :: (r, c)
  }

  /** Pixels with low <= magnitude < high. */
  ghost function WeakCells(mag: seq<seq<int>>, low: int, high: int): set<Cell>
  {
    set r, c | 0 <= r < |mag| && 0 <= c < |mag[r]| && low <= mag[r][c] < high :: (r, c)
  }

  /**
   * No pixel is both strong and weak, and together the two classes are
   * the pixels whose magnitude reaches `low` (when low <= high).
   */
  lemma StrongWeakPartition(mag: seq<seq<int>>, low: int, high: int)
    requires low <= high
    ensures StrongCells(mag, high) !! WeakCells(mag, low, high)
    ensures forall r, c :: 0 <= r < |mag| && 0 <= c < |mag[r]| ==>
      ((r, c) in StrongCells(mag, high) + WeakCells(mag, low, high) <==> mag[r][c] >= low)
  {
    forall x | x in StrongCells(mag, high) ensures x !in WeakCells(mag, low, high) {
      var r, c :| 0 <= r < |mag| && 0 <= c < |mag[r]| && mag[r][c] >= high && x == (r, c);
    }
    forall r, c | 0 <= r < |mag| && 0 <= c < |mag[r]| && mag[r][c] >= low
      ensures (r, c) in StrongCells(mag, high) + WeakCells(mag, low, high)
    {
      if mag[r][c] >= high {
        assert (r, c) in StrongCells(mag, high);
      } else {
        assert (r, c) in WeakCells(mag, low, high);
      }
    }
  }

  /** The final edge set hysteresis linking promises for a magnitude grid. */
  ghost function HysteresisEdges(mag: seq<seq<int>>, low: int, high: int, minEdgeSize: int): set<Cell>
  {
    Accepted(StrongCells(mag, high) + WeakCells(mag, low, high), StrongCells(mag, high), minEdgeSize)
  }

  // ---------------------------------------------------------------------
  // Reachability.

  lemma ReachRefl(sw: set<Cell>, a: Cell)
    requires a in sw
    ensures Reach(sw, a, a)
  {
    assert IsPath(sw, [a]);
  }

  lemma ReachEnds(sw: set<Cell>, a: Cell, b: Cell)
    requires Reach(sw, a, b)
    ensures a in sw && b in sw
  {
    var p :| IsPath(sw, p) && p[0] == a && p[|p| - 1] == b;
    assert p[|p| - 1] in sw;
  }

  /** A reachable pixel's candidate neighbour is reachable too. */
  lemma ReachStep(sw: set<Cell>, a: Cell, b: Cell, c: Cell)
    requires Reach(sw, a, b) && c in sw && Adjacent(b, c)
    ensures Reach(sw, a, c)
  {
    var p :| IsPath(sw, p) && p[0] == a && p[|p| - 1] == b;
    var q := p + [c];
    assert IsPath(sw, q);
    assert q[0] == a && q[|q| - 1] == c;
  }

  function Reverse<T>(p: seq<T>): (r: seq<T>)
    ensures |r| == |p|
    ensures forall k :: 0 <= k < |p| ==> r[k] == p[|p| - 1 - k]
  {
    if p == [] then [] else Reverse(p[1..]) + [p[0]]
  }

  lemma ReachSym(sw: set<Cell>, a: Cell, b: Cell)
    requires Reach(sw, a, b)
    ensures Reach(sw, b, a)
  {
    var p :| IsPath(sw, p) && p[0] == a && p[|p| - 1] == b;
    var q := Reverse(p);
    forall k | 0 <= k < |q| - 1
      ensures Adjacent(q[k], q[k + 1])
    {
      assert Adjacent(p[|p| - 2 - k], p[|p| - 1 - k]);
    }
    assert IsPath(sw, q);
  }

  lemma ReachTrans(sw: set<Cell>, a: Cell, b: Cell, c: Cell)
    requires Reach(sw, a, b) && Reach(sw, b, c)
    ensures Reach(sw, a, c)
  {
    var p :| IsPath(sw, p) && p[0] == a && p[|p| - 1] == b;
    var q :| IsPath(sw, q) && q[0] == b && q[|q| - 1] == c;
    var r := p + q[1..];
    forall k | 0 <= k < |r| - 1
      ensures Adjacent(r[k], r[k + 1])
    {
      if k < |p| - 1 {
      } else {
        assert r[k] == q[k - |p| + 1];
      }
    }
    assert IsPath(sw, r);
    assert r[|r| - 1] == c;
  }

  /** Linked pixels have the same component. */
  lemma ComponentShared(sw: set<Cell>, a: Cell, b: Cell)
    requires Reach(sw, a, b)
    ensures Component(sw, a) == Component(sw, b)
  {
    ReachSym(sw, a, b);
    forall x | x in Component(sw, a) ensures x in Component(sw, b) {
      ReachTrans(sw, b, a, x);
    }
    forall x | x in Component(sw, b) ensures x in Component(sw, a) {
      ReachTrans(sw, a, b, x);
    }
  }

  /** A closed set of marks that holds a contains every pixel reachable from a. */
  lemma ClosedReach(sw: set<Cell>, marked: set<Cell>, rows: int, columns: int, a: Cell, b: Cell)
    requires InsideGrid(sw, rows, columns)
    requires Closed(sw, marked, rows, columns)
    requires a in marked && Reach(sw, a, b)
    ensures b in marked
  {
    var p :| IsPath(sw, p) && p[0] == a && p[|p| - 1] == b;
    var k := 0;
    while k < |p| - 1
      invariant 0 <= k < |p|
      invariant p[k] in marked
    {
      assert p[k] in sw && Adjacent(p[k], p[k + 1]) && InGrid(rows, columns, p[k + 1]);
      k := k + 1;
    }
  }

  // ---------------------------------------------------------------------
  // One depth-first search from `seed`, as a relation between the marks
  // before (m0) and after (m1) and the pixels it pushed.

  ghost predicate Explored(sw: set<Cell>, rows: int, columns: int, seed: Cell,
                           m0: set<Cell>, m1: set<Cell>, pushed: seq<Cell>)
  {
    && m0 <= m1
    && (forall x :: x in pushed <==> x in m1 && x !in m0 && x in sw)
    && Distinct(pushed)
    && (forall x :: x in pushed ==> Reach(sw, seed, x))
    && (forall x, y {:trigger Adjacent(x, y)} ::
          x in pushed && InGrid(rows, columns, y) && Adjacent(x, y) ==> y in m1)
  }

  lemma ExploredTrans(sw: set<Cell>, rows: int, columns: int, seed: Cell,
                      m0: set<Cell>, m1: set<Cell>, m2: set<Cell>, p1: seq<Cell>, p2: seq<Cell>)
    requires Explored(sw, rows, columns, seed, m0, m1, p1)
    requires Explored(sw, rows, columns, seed, m1, m2, p2)
    ensures Explored(sw, rows, columns, seed, m0, m2, p1 + p2)
  {
    var p := p1 + p2;
    forall i, j | 0 <= i < j < |p| ensures p[i] != p[j] {
      if j < |p1| {
      } else if i >= |p1| {
        assert p[i] == p2[i - |p1|] && p[j] == p2[j - |p1|];
      } else {
        assert p[i] in p1 && p[j] in p2;
      }
    }
  }

  /** The search from a freshly marked candidate x, whose neighbours were all searched next. */
  lemma ExploredFrom(sw: set<Cell>, rows: int, columns: int, seed: Cell,
                     m0: set<Cell>, m1: set<Cell>, m2: set<Cell>, x: Cell, q: seq<Cell>)
    requires m1 == m0 + {x} && x !in m0 && x in sw && Reach(sw, seed, x)
    requires Explored(sw, rows, columns, seed, m1, m2, q)
    requires NeighboursMarked(x, 8, m2, rows, columns)
    ensures Explored(sw, rows, columns, seed, m0, m2, [x] + q)
  {
    AllNeighboursMarked(x, m2, rows, columns);
    var p := [x] + q;
    forall i, j | 0 <= i < j < |p| ensures p[i] != p[j] {
      if i == 0 {
        assert p[j] in q;
      } else {
        assert p[i] == q[i - 1] && p[j] == q[j - 1];
      }
    }
  }

  /** A freshly marked pixel that is not a candidate pushes nothing. */
  lemma ExploredNonCandidate(sw: set<Cell>, rows: int, columns: int, seed: Cell,
                             m0: set<Cell>, x: Cell)
    requires x !in sw
    ensures Explored(sw, rows, columns, seed, m0, m0 + {x}, [])
  {
  }

  lemma ExploredNothing(sw: set<Cell>, rows: int, columns: int, seed: Cell, m0: set<Cell>)
    ensures Explored(sw, rows, columns, seed, m0, m0, [])
  {
  }

  /** The k-th of the eight neighbours of x, in the order the search visits them. */
  function Neighbour(x: Cell, k: int): (n: Cell)
    requires 0 <= k < 8
    ensures Adjacent(x, n)
  {
    if k == 0 then (x.0 - 1, x.1 - 1)
    else if k == 1 then (x.0 - 1, x.1)
    else if k == 2 then (x.0 - 1, x.1 + 1)
    else if k == 3 then (x.0, x.1 - 1)
    else if k == 4 then (x.0, x.1 + 1)
    else if k == 5 then (x.0 + 1, x.1 - 1)
    else if k == 6 then (x.0 + 1, x.1)
    else (x.0 + 1, x.1 + 1)
  }

  /** Only the listed positions are 8-neighbours of x. */
  lemma NeighbourCases(x: Cell, y: Cell) returns (k: int)
    requires Adjacent(x, y)
    ensures 0 <= k < 8 && y == Neighbour(x, k)
  {
    k := 3 * (y.0 - x.0 + 1) + (y.1 - x.1 + 1);
    if k > 4 {
      k := k - 1;
    }
  }

  /** The first k neighbours of x that lie in the grid are all in m. */
  ghost predicate NeighboursMarked(x: Cell, k: int, m: set<Cell>, rows: int, columns: int)
    requires 0 <= k <= 8
  {
    forall i :: 0 <= i < k && InGrid(rows, columns, Neighbour(x, i)) ==> Neighbour(x, i) in m
  }

  /** Once all eight have been visited, every neighbour of x in the grid is marked. */
  lemma AllNeighboursMarked(x: Cell, m: set<Cell>, rows: int, columns: int)
    requires NeighboursMarked(x, 8, m, rows, columns)
    ensures forall y :: InGrid(rows, columns, y) && Adjacent(x, y) ==> y in m
  {
    forall y | InGrid(rows, columns, y) && Adjacent(x, y) ensures y in m {
      var k := NeighbourCases(x, y);
    }
  }

  // ---------------------------------------------------------------------
  // One turn of the linking loop.

  lemma {:induction false} DistinctCard<T>(p: seq<T>)
    requires Distinct(p)
    ensures |set x | x in p| == |p|
  {
    if p != [] {
      var init := p[..|p| - 1];
      DistinctCard(init);
      assert (set x | x in p) == (set x | x in init) + {p[|p| - 1]};
      assert p[|p| - 1] !in (set x | x in init);
    }
  }

  /** Adding one seed adds its whole component, when large enough, and nothing else. */
  lemma AcceptedInsert(sw: set<Cell>, seeds: set<Cell>, s: Cell, minEdgeSize: int)
    ensures forall x :: x in Accepted(sw, seeds + {s}, minEdgeSize) <==>
      x in Accepted(sw, seeds, minEdgeSize) || (|Component(sw, s)| >= minEdgeSize && x in Component(sw, s))
  {
  }

  /**
   * What the linking loop keeps between two seeds: the marks are closed
   * under candidate neighbours, and every marked candidate is linked to one
   * of the seeds visited so far.
   */
  ghost predicate Covering(sw: set<Cell>, done: set<Cell>, marked: set<Cell>, rows: int, columns: int)
  {
    && Closed(sw, marked, rows, columns)
    && (forall x :: x in marked && x in sw ==> exists s :: s in done && Reach(sw, s, x))
  }

  /**
   * The linking loop's step: after the search from `seed`, the marks still
   * cover the visited seeds, and the edges to add are exactly the pixels the
   * search pushed, when there are enough of them.
   */
  lemma LinkStep(sw: set<Cell>, rows: int, columns: int, done: set<Cell>,
                 m0: set<Cell>, m1: set<Cell>, pushed: seq<Cell>, seed: Cell, minEdgeSize: int)
    requires InsideGrid(sw, rows, columns)
    requires seed in sw && seed in m1
    requires Covering(sw, done, m0, rows, columns)
    requires Explored(sw, rows, columns, seed, m0, m1, pushed)
    requires seed in m0 ==> pushed == [] && m1 == m0
    ensures Covering(sw, done + {seed}, m1, rows, columns)
    ensures forall x :: x in Accepted(sw, done + {seed}, minEdgeSize) <==>
      x in Accepted(sw, done, minEdgeSize) || (|pushed| >= minEdgeSize && x in pushed)
  {
    AcceptedInsert(sw, done, seed, minEdgeSize);
    var comp := Component(sw, seed);
    if seed in m0 {
      var s0 :| s0 in done && Reach(sw, s0, seed);
      ComponentShared(sw, s0, seed);
      forall x | x in comp
        ensures |comp| >= minEdgeSize ==> x in Accepted(sw, done, minEdgeSize)
      {
        ReachTrans(sw, s0, seed, x);
      }
    } else {
      forall x | x in comp ensures x in pushed {
        ReachClosedExplored(sw, rows, columns, m0, m1, pushed, seed, x);
      }
      assert (set x | x in pushed) == comp;
      DistinctCard(pushed);
    }
  }

  /**
   * One of the eight recursive calls of a search from x, on its k-th
   * neighbour: it extends what the search has explored, and that neighbour,
   * when in the grid, is marked from then on.
   */
  lemma SearchStep(sw: set<Cell>, rows: int, columns: int, seed: Cell, m1: set<Cell>, mk: set<Cell>,
                   mk1: set<Cell>, acc: seq<Cell>, p: seq<Cell>, x: Cell, k: int, n: Cell)
    requires Explored(sw, rows, columns, seed, m1, mk, acc)
    requires Explored(sw, rows, columns, seed, mk, mk1, p)
    requires 0 <= k < 8 && NeighboursMarked(x, k, mk, rows, columns)
    requires n == Neighbour(x, k) && (InGrid(rows, columns, n) ==> n in mk1)
    ensures Explored(sw, rows, columns, seed, m1, mk1, acc + p)
    ensures NeighboursMarked(x, k + 1, mk1, rows, columns)
  {
    ExploredTrans(sw, rows, columns, seed, m1, mk, mk1, acc, p);
  }

  /** A pixel linked to a seed that was unmarked before the search was pushed by it. */
  lemma ReachClosedExplored(sw: set<Cell>, rows: int, columns: int,
                            m0: set<Cell>, m1: set<Cell>, pushed: seq<Cell>, seed: Cell, x: Cell)
    requires InsideGrid(sw, rows, columns)
    requires seed in sw && seed in m1 && seed !in m0
    requires Closed(sw, m0, rows, columns)
    requires Explored(sw, rows, columns, seed, m0, m1, pushed)
    requires x in sw && Reach(sw, seed, x)
    ensures x in pushed
  {
    if x in m0 {
      ReachSym(sw, seed, x);
      ClosedReach(sw, m0, rows, columns, x, seed);
    }
    ClosedReach(sw, m1, rows, columns, seed, x);
  }

  // ---------------------------------------------------------------------
  // Properties of the edge set.

  /** Edge pixels are always candidates: a pixel classified neither strong nor weak is never an edge. */
  lemma AcceptedAreCandidates(sw: set<Cell>, seeds: set<Cell>, minEdgeSize: int)
    ensures Accepted(sw, seeds, minEdgeSize) <= sw
  {
  }

  /** The edge set is a union of whole components: everything linked to an edge pixel is one. */
  lemma AcceptedClosedUnderReach(sw: set<Cell>, seeds: set<Cell>, minEdgeSize: int, x: Cell, y: Cell)
    requires x in Accepted(sw, seeds, minEdgeSize) && Reach(sw, x, y)
    ensures y in Accepted(sw, seeds, minEdgeSize)
  {
    var s :| s in seeds && Reach(sw, s, x) && |Component(sw, s)| >= minEdgeSize;
    ReachTrans(sw, s, x, y);
    ReachEnds(sw, x, y);
  }

  /** With minEdgeSize at most 1 every strong pixel is an edge pixel. */
  lemma SeedsAcceptedWhenNoMinimum(sw: set<Cell>, seeds: set<Cell>, minEdgeSize: int, s: Cell)
    requires seeds <= sw && s in seeds && minEdgeSize <= 1
    ensures s in Accepted(sw, seeds, minEdgeSize)
  {
    ReachRefl(sw, s);
    assert s in Component(sw, s);
  }

  /** A candidate with no path to any seed is never an edge pixel. */
  lemma UnlinkedNeverAccepted(sw: set<Cell>, seeds: set<Cell>, minEdgeSize: int, x: Cell)
    requires forall s :: s in seeds ==> !Reach(sw, s, x)
    ensures x !in Accepted(sw, seeds, minEdgeSize)
  {
  }

  /** A candidate none of whose 8-neighbours is a candidate reaches only itself. */
  lemma IsolatedReach(sw: set<Cell>, s: Cell, x: Cell)
    requires forall y :: y in sw ==> !Adjacent(s, y)
    requires Reach(sw, s, x)
    ensures x == s
  {
    var p :| IsPath(sw, p) && p[0] == s && p[|p| - 1] == x;
    PathSecond(sw, p);
  }

  /** A path of two or more pixels steps from its first pixel to an adjacent candidate. */
  lemma PathSecond(sw: set<Cell>, p: seq<Cell>)
    requires IsPath(sw, p)
    ensures |p| > 1 ==> p[1] in sw && Adjacent(p[0], p[1])
  {
  }

  /**
   * An isolated pixel (no candidate among its 8-neighbours) is never an edge
   * once minEdgeSize is at least 2, whatever the other candidates and seeds:
   * the only seed that reaches it is itself, and its component has one pixel.
   */
  lemma {:induction false} IsolatedSeedFiltered(sw: set<Cell>, seeds: set<Cell>, s: Cell, minEdgeSize: int)
    requires forall y :: y in sw ==> !Adjacent(s, y)
    requires minEdgeSize >= 2
    ensures s !in Accepted(sw, seeds, minEdgeSize)
  {
    forall t | t in seeds && Reach(sw, t, s)
      ensures |Component(sw, t)| < minEdgeSize
    {
      ReachSym(sw, t, s);
      IsolatedReach(sw, s, t);
      forall x | x in Component(sw, s) ensures x == s {
        IsolatedReach(sw, s, x);
      }
      SubsetCard(Component(sw, s), {s});
    }
  }

  lemma {:induction false} ReachWithin(sw1: set<Cell>, sw2: set<Cell>, a: Cell, b: Cell)
    requires sw2 <= sw1 && Reach(sw2, a, b)
    ensures Reach(sw1, a, b)
  {
    var p :| IsPath(sw2, p) && p[0] == a && p[|p| - 1] == b;
    assert IsPath(sw1, p);
  }

  lemma SubsetCard(a: set<Cell>, b: set<Cell>)
    requires a <= b
    ensures |a| <= |b|
  {
    assert b == a + (b - a);
    assert a * (b - a) == {};
  }

  /**
   * Fewer candidates and fewer seeds never give more edge pixels, and a
   * larger minEdgeSize never does either.
   */
  lemma AcceptedMonotone(sw1: set<Cell>, sw2: set<Cell>, seeds1: set<Cell>, seeds2: set<Cell>, min1: int, min2: int)
    requires sw2 <= sw1 && seeds2 <= seeds1 && min1 <= min2
    ensures Accepted(sw2, seeds2, min2) <= Accepted(sw1, seeds1, min1)
  {
    forall x | x in Accepted(sw2, seeds2, min2) ensures x in Accepted(sw1, seeds1, min1) {
      var s :| s in seeds2 && Reach(sw2, s, x) && |Component(sw2, s)| >= min2;
      ReachWithin(sw1, sw2, s, x);
      forall y | y in Component(sw2, s) ensures y in Component(sw1, s) {
        ReachWithin(sw1, sw2, s, y);
      }
      SubsetCard(Component(sw2, s), Component(sw1, s));
    }
  }

  /** Raising the high threshold with the low one fixed never adds an edge pixel. */
  lemma HighThresholdMonotone(mag: seq<seq<int>>, low: int, high1: int, high2: int, minEdgeSize: int)
    requires high1 <= high2
    ensures HysteresisEdges(mag, low, high2, minEdgeSize) <= HysteresisEdges(mag, low, high1, minEdgeSize)
  {
    var strong1, strong2 := StrongCells(mag, high1), StrongCells(mag, high2);
    var sw1 := strong1 + WeakCells(mag, low, high1);
    var sw2 := strong2 + WeakCells(mag, low, high2);
    assert strong2 <= strong1;
    assert sw2 <= sw1;
    AcceptedMonotone(sw1, sw2, strong1, strong2, minEdgeSize, minEdgeSize);
  }
}
