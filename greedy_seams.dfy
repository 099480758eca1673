/**
 * The seam search as values. An energy map m is indexed [x][y]: |m| columns,
 * each of height h. A vertical seam holds one column index per row.
 * The search is greedy: from every top-row column it walks down, each step to
 * the cheapest of the two or three cells directly below, and keeps the walk
 * whose summed energy is least.
 */
module GreedySeams {

  /** Every column of m has height h. */
  predicate IsMap(m: seq<seq<int>>, h: int) {
    forall x | 0 <= x < |m| :: |m[x]| == h
  }

  /** s has n entries, each in [0, bound). */
  predicate InBounds(s: seq<int>, n: int, bound: int) {
    |s| == n && forall d | 0 <= d < |s| :: 0 <= s[d] < bound
  }

  /** Consecutive entries of s differ by at most one. */
  predicate Connected(s: seq<int>) {
    forall d, e | 0 <= d < |s| && 0 <= e < |s| && e == d + 1 :: -1 <= s[e] - s[d] <= 1
  }

  /** A seam through n rows of a map with bound columns. */
  predicate IsSeam(s: seq<int>, n: int, bound: int) {
    InBounds(s, n, bound) && Connected(s)
  }

  /** The first index holding the least element, scanning left to right and
      replacing the candidate only on a strictly smaller element. */
  function FirstMin(s: seq<int>): (i: nat)
    requires |s| > 0
    ensures i < |s|
    ensures forall j | 0 <= j < |s| :: s[i] <= s[j]
    ensures forall j | 0 <= j < i :: s[i] < s[j]
    decreases |s|
  {
    if |s| == 1 then 0
    else
      var k := FirstMin(s[..|s| - 1]);
      if s[|s| - 1] < s[k] then |s| - 1 else k
  }

  /** The column the greedy walk moves to from column x of row y: of the two
      cells below (at the left or right border) or the three cells below, the
      one of least energy, and the leftmost one on a tie, because a candidate
      replaces the current one only when it is strictly cheaper. */
  function NextPixel(m: seq<seq<int>>, h: int, x: int, y: int): (r: int)
    requires IsMap(m, h) && |m| >= 2 && 0 <= x < |m| && 0 <= y + 1 < h
    ensures 0 <= r < |m| && x - 1 <= r <= x + 1
  {
    var numNeighbor := if x == 0 || x == |m| - 1 then 2 else 3;
    var start := if x == 0 then 0 else x - 1;
    var second := if m[start + 1][y + 1] < m[start][y + 1] then start + 1 else start;
    if numNeighbor == 2 then second
    else if m[start + 2][y + 1] < m[second][y + 1] then start + 2 else second
  }

  /** The step goes to a cheapest cell among those directly below (one column
      either way, within the map), and to the leftmost one on a tie. */
  lemma NextPixelIsLeftmostCheapest(m: seq<seq<int>>, h: int, x: int, y: int)
    requires IsMap(m, h) && |m| >= 2 && 0 <= x < |m| && 0 <= y + 1 < h
    ensures var r := NextPixel(m, h, x, y);
      (forall k | 0 <= k < |m| && x - 1 <= k <= x + 1 :: m[r][y + 1] <= m[k][y + 1]) &&
      (forall k | 0 <= k < r && x - 1 <= k :: m[r][y + 1] < m[k][y + 1])
  {
  }

  /** Conversely, the leftmost cheapest cell below is the one the step goes
      to, so the two properties above determine the step exactly. */
  lemma LeftmostCheapestIsNextPixel(m: seq<seq<int>>, h: int, x: int, y: int, r: int)
    requires IsMap(m, h) && |m| >= 2 && 0 <= x < |m| && 0 <= y + 1 < h
    requires 0 <= r < |m| && x - 1 <= r <= x + 1
    requires forall k | 0 <= k < |m| && x - 1 <= k <= x + 1 :: m[r][y + 1] <= m[k][y + 1]
    requires forall k | 0 <= k < r && x - 1 <= k :: m[r][y + 1] < m[k][y + 1]
    ensures r == NextPixel(m, h, x, y)
  {
    NextPixelIsLeftmostCheapest(m, h, x, y);
  }

  /** The first n steps of the greedy walk that starts at column x of row 0. */
  function GreedyPath(m: seq<seq<int>>, h: int, x: int, n: nat): (p: seq<int>)
    requires IsMap(m, h) && 0 <= x < |m| && n <= h && (|m| >= 2 || n <= 1)
    ensures InBounds(p, n, |m|)
    ensures n > 0 ==> p[0] == x
    decreases n
  {
    if n == 0 then []
    else if n == 1 then [x]
    else
      var p := GreedyPath(m, h, x, n - 1);
      p + [NextPixel(m, h, p[n - 2], n - 2)]
  }

  /** The energy summed along the first n rows of p, where p[d] is the column at row d. */
  function PathCost(m: seq<seq<int>>, h: int, p: seq<int>, n: nat): int
    requires IsMap(m, h) && n <= |p| <= h && InBounds(p, |p|, |m|)
  {
    if n == 0 then 0
    else PathCost(m, h, p, n - 1) + m[p[n - 1]][n - 1]
  }

  /** The cost of the full greedy walk from every top-row column. */
  function Costs(m: seq<seq<int>>, h: nat): (c: seq<int>)
    requires IsMap(m, h) && (|m| >= 2 || h <= 1)
    ensures |c| == |m|
  {
    seq(|m|, x requires 0 <= x < |m| => PathCost(m, h, GreedyPath(m, h, x, h), h))
  }

  /** On a map of non-negative energies, as the energy map is, every path costs
      at least nothing and at least the energy of each cell it passes. */
  lemma {:induction false} PathCostBounds(m: seq<seq<int>>, h: int, p: seq<int>, n: nat)
    requires IsMap(m, h) && n <= |p| <= h && InBounds(p, |p|, |m|)
    requires forall x, y | 0 <= x < |m| && 0 <= y < h :: m[x][y] >= 0
    ensures PathCost(m, h, p, n) >= 0
    ensures forall d | 0 <= d < n :: PathCost(m, h, p, n) >= m[p[d]][d]
  {
    if n > 0 {
      PathCostBounds(m, h, p, n - 1);
    }
  }

  /** The vertical seam the search returns: the cheapest greedy walk, the first on a tie. */
  function GreedySeam(m: seq<seq<int>>, h: nat): (s: seq<int>)
    requires IsMap(m, h) && |m| >= 1 && (|m| >= 2 || h <= 1)
    ensures IsSeam(s, h, |m|)
  {
    var s := GreedyPath(m, h, FirstMin(Costs(m, h)), h);
    GreedyPathIsConnected(m, h, FirstMin(Costs(m, h)), h);
    s
  }

  /** The map with its axes swapped: Transpose(m, h)[y][x] == m[x][y]. */
  function Transpose(m: seq<seq<int>>, h: nat): (t: seq<seq<int>>)
    requires IsMap(m, h)
    ensures |t| == h && IsMap(t, |m|)
    ensures forall y, x | 0 <= y < h && 0 <= x < |m| :: t[y][x] == m[x][y]
  {
    seq(h, y requires 0 <= y < h => seq(|m|, x requires 0 <= x < |m| => m[x][y]))
  }

  /** Transposing twice gives back the map. */
  lemma TransposeTwice(m: seq<seq<int>>, h: nat)
    requires IsMap(m, h)
    ensures Transpose(Transpose(m, h), |m|) == m
  {
    var t := Transpose(Transpose(m, h), |m|);
    forall x | 0 <= x < |m| ensures t[x] == m[x] {
      assert |t[x]| == |m[x]|;
    }
  }

  /** A shorter greedy walk is a prefix of a longer one from the same column. */
  lemma {:induction false} GreedyPathPrefix(m: seq<seq<int>>, h: int, x: int, n: nat, k: nat)
    requires IsMap(m, h) && 0 <= x < |m| && n <= h && (|m| >= 2 || n <= 1) && k <= n
    ensures GreedyPath(m, h, x, n)[..k] == GreedyPath(m, h, x, k)
    decreases n
  {
    if k < n {
      GreedyPathPrefix(m, h, x, n - 1, k);
      if n >= 2 {
        assert GreedyPath(m, h, x, n)[..n - 1] == GreedyPath(m, h, x, n - 1);
      }
    }
  }

  /** Every step of a greedy walk is the step NextPixel takes from the cell above. */
  lemma GreedyPathStep(m: seq<seq<int>>, h: int, x: int, n: nat, d: nat)
    requires IsMap(m, h) && 0 <= x < |m| && n <= h && (|m| >= 2 || n <= 1) && d + 1 < n
    ensures var p := GreedyPath(m, h, x, n); p[d + 1] == NextPixel(m, h, p[d], d)
  {
    var p := GreedyPath(m, h, x, n);
    GreedyPathPrefix(m, h, x, n, d + 2);
    GreedyPathPrefix(m, h, x, n, d + 1);
    var q := GreedyPath(m, h, x, d + 1);
    assert p[..d + 1] == q;
    assert GreedyPath(m, h, x, d + 2) == q + [NextPixel(m, h, q[d], d)];
    assert p[d] == q[d];
    assert p[d + 1] == GreedyPath(m, h, x, d + 2)[d + 1];
  }

  /** Every step of a greedy walk goes to a cheapest cell among the two or
      three directly below, the leftmost one on a tie. */
  lemma GreedyPathStepIsLeftmostCheapest(m: seq<seq<int>>, h: int, x: int, n: nat, d: nat)
    requires IsMap(m, h) && 0 <= x < |m| && n <= h && (|m| >= 2 || n <= 1) && d + 1 < n
    ensures var p := GreedyPath(m, h, x, n);
      (forall k | 0 <= k < |m| && p[d] - 1 <= k <= p[d] + 1 :: m[p[d + 1]][d + 1] <= m[k][d + 1]) &&
      (forall k | 0 <= k < p[d + 1] && p[d] - 1 <= k :: m[p[d + 1]][d + 1] < m[k][d + 1])
  {
    GreedyPathStep(m, h, x, n, d);
    NextPixelIsLeftmostCheapest(m, h, GreedyPath(m, h, x, n)[d], d);
  }

  /** A greedy walk moves at most one column per row. */
  lemma GreedyPathIsConnected(m: seq<seq<int>>, h: int, x: int, n: nat)
    requires IsMap(m, h) && 0 <= x < |m| && n <= h && (|m| >= 2 || n <= 1)
    ensures Connected(GreedyPath(m, h, x, n))
  {
    var p := GreedyPath(m, h, x, n);
    forall d, e | 0 <= d < |p| && 0 <= e < |p| && e == d + 1 ensures -1 <= p[e] - p[d] <= 1 {
      GreedyPathStep(m, h, x, n, d);
    }
  }

  /** The seam is the full greedy walk from its own top column, no greedy walk
      costs less, and every walk starting further left costs strictly more. */
  lemma GreedySeamIsFirstCheapest(m: seq<seq<int>>, h: nat)
    requires IsMap(m, h) && |m| >= 1 && (|m| >= 2 || h <= 1) && h >= 1
    ensures var s := GreedySeam(m, h);
      s == GreedyPath(m, h, s[0], h) &&
      (forall x | 0 <= x < |m| :: PathCost(m, h, s, h) <= PathCost(m, h, GreedyPath(m, h, x, h), h)) &&
      (forall x | 0 <= x < s[0] :: PathCost(m, h, s, h) < PathCost(m, h, GreedyPath(m, h, x, h), h))
  {
    var c := Costs(m, h);
    var b := FirstMin(c);
    var s := GreedyPath(m, h, b, h);
    assert GreedySeam(m, h) == s;
    assert s[0] == b;
    forall x | 0 <= x < |m|
      ensures PathCost(m, h, s, h) <= PathCost(m, h, GreedyPath(m, h, x, h), h)
    {
      assert c[b] <= c[x];
    }
    forall x | 0 <= x < b
      ensures PathCost(m, h, s, h) < PathCost(m, h, GreedyPath(m, h, x, h), h)
    {
      assert c[b] < c[x];
    }
  }

  /** The search is greedy, not optimal: on this 3-by-3 map it returns the
      seam [0, 0, 0] of cost 10 while the seam [1, 0, 0] costs 1. */
  lemma GreedyIsNotOptimal()
    ensures var m := TrapMap();
      IsMap(m, 3) &&
      GreedySeam(m, 3) == [0, 0, 0] && PathCost(m, 3, [0, 0, 0], 3) == 10 &&
      IsSeam([1, 0, 0], 3, 3) && PathCost(m, 3, [1, 0, 0], 3) == 1
  {
    var m := TrapMap();
    TrapMapWalk0();
    TrapMapWalk1();
    TrapMapWalk2();
    PathCostOfThree(m, 0, 0, 0);
    PathCostOfThree(m, 1, 2, 1);
    PathCostOfThree(m, 2, 2, 1);
    PathCostOfThree(m, 1, 0, 0);
    var c := Costs(m, 3);
    assert c[0] == 10 && c[1] == 50 && c[2] == 59;
    assert c == [10, 50, 59];
    assert FirstMin([10, 50, 59]) == 0;
  }

  /** A map on which a cheap first step leads the walk into expensive cells. */
  function TrapMap(): (m: seq<seq<int>>)
    ensures IsMap(m, 3) && |m| == 3
  {
    [[9, 1, 0], [0, 9, 50], [9, 0, 50]]
  }

  /** The greedy walks on TrapMap from each top-row column. */
  lemma TrapMapWalk0() ensures GreedyPath(TrapMap(), 3, 0, 3) == [0, 0, 0] {
    var m := TrapMap();
    assert GreedyPath(m, 3, 0, 3) == [0, 0, 0];
  }

  lemma TrapMapWalk1() ensures GreedyPath(TrapMap(), 3, 1, 3) == [1, 2, 1] {
    var m := TrapMap();
    assert GreedyPath(m, 3, 1, 3) == [1, 2, 1];
  }

  lemma TrapMapWalk2() ensures GreedyPath(TrapMap(), 3, 2, 3) == [2, 2, 1] {
    var m := TrapMap();
    assert GreedyPath(m, 3, 2, 3) == [2, 2, 1];
  }

  lemma PathCostOfThree(m: seq<seq<int>>, a: int, b: int, c: int)
    requires IsMap(m, 3) && 0 <= a < |m| && 0 <= b < |m| && 0 <= c < |m|
    ensures PathCost(m, 3, [a, b, c], 3) == m[a][0] + m[b][1] + m[c][2]
  {
    var p := [a, b, c];
    assert PathCost(m, 3, p, 1) == m[a][0];
    assert PathCost(m, 3, p, 2) == m[a][0] + m[b][1];
  }
}
