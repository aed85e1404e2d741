/**
 The shortest-path scan behind SeamCarver.findVerticalSeam, over an arbitrary
 field of real weights stored column-major (`weight[c][r]`, as the source's
 `double[col][row]`).

 The reference definition is row by row: `Dist(r)[c]` is the cost of the best
 path from row 0 to `(c, r)`, `Parent` is the predecessor the source keeps in
 `edgeTo`, and `MinSeam` backtracks from the cheapest end of the last row.
 `ShortestPath` is the source's loop nest (relax every edge of the implicit
 DAG in row order, then scan the last row, then follow `edgeTo`) and is proved
 to return exactly `MinSeam`.
 */
module SeamSearch {
  import opened Results

  /** `weight` has `w` columns of `h` rows each. */
  predicate IsField(weight: seq<seq<real>>, w: int, h: int)
  {
    |weight| == w && forall c :: 0 <= c < w ==> |weight[c]| == h
  }

  function Min(a: int, b: int): int
  {
    if a <= b then a else b
  }

  /** Lowest column adjacent to column `c` (the neighbourhood c-1..c+1 clipped at 0). */
  function Lo(c: int): int
  {
    if c > 0 then c - 1 else 0
  }

  /** One past the highest column adjacent to column `c` in a field `w` wide. */
  function Hi(c: int, w: int): int
  {
    if c + 2 < w then c + 2 else w
  }

  /** The source's `adjacent(v)`: the columns of the next row reachable from
      column `v`, in increasing order. */
  function Adjacent(v: int, w: int): (adj: seq<int>)
    requires 0 <= v < w
    ensures |adj| == Hi(v, w) - Lo(v)
    ensures forall i :: 0 <= i < |adj| ==> adj[i] == Lo(v) + i
    ensures forall x :: x in adj <==> 0 <= x < w && v - 1 <= x <= v + 1
  {
    if v == 0 then
      if w == 1 then [v] else [v, v + 1]
    else if v == w - 1 then
      [v - 1, v]
    else
      [v - 1, v, v + 1]
  }

  /** Every entry of `p` is a column of a field `w` wide. */
  predicate InColumns(p: seq<int>, w: int)
  {
    forall i :: 0 <= i < |p| ==> 0 <= p[i] < w
  }

  /** Consecutive entries of `p` differ by at most one. */
  predicate Connected(p: seq<int>)
  {
    forall i :: 1 <= i < |p| ==> -1 <= Step(p, i) <= 1
  }

  /** How far `p` moves sideways between entries `i - 1` and `i`. */
  function Step(p: seq<int>, i: int): int
    requires 1 <= i < |p|
  {
    p[i] - p[i - 1]
  }

  /** `p` is a connected path down the first `|p|` rows of a field `w` wide. */
  predicate IsPath(p: seq<int>, w: int)
  {
    InColumns(p, w) && Connected(p)
  }

  /** The weight collected by a path: the weights it crosses in rows 1 and
      below. Row 0 contributes nothing, because the source starts every
      column of row 0 at distance 0. */
  function Cost(weight: seq<seq<real>>, w: int, h: int, p: seq<int>): real
    requires IsField(weight, w, h) && |p| <= h && InColumns(p, w)
    decreases |p|
  {
    if |p| <= 1 then 0.0
    else Cost(weight, w, h, p[..|p| - 1]) + weight[p[|p| - 1]][|p| - 1]
  }

  /** The first position in `[lo, hi)` holding the minimum of `row` there:
      what a left-to-right scan keeping only strict improvements ends with. */
  function FirstMin(row: seq<real>, lo: int, hi: int): (m: int)
    requires 0 <= lo < hi <= |row|
    ensures lo <= m < hi
    ensures forall i :: lo <= i < hi ==> row[m] <= row[i]
    ensures forall i :: lo <= i < m ==> row[m] < row[i]
    decreases hi
  {
    if hi == lo + 1 then lo
    else
      var m := FirstMin(row, lo, hi - 1);
      if row[m] > row[hi - 1] then hi - 1 else m
  }

  function RealMin(a: real, b: real): real
  {
    if a <= b then a else b
  }

  /** The source's `distTo[c][r]`: 0 in row 0, and below that the weight of
      the pixel plus the least distance among the adjacent columns of the
      row above. */
  function Dist(weight: seq<seq<real>>, w: int, h: int, r: int, c: int): real
    requires IsField(weight, w, h) && 0 <= r < h && 0 <= c < w
    decreases r, 0
  {
    if r == 0 then 0.0 else LeastAdjacent(weight, w, h, r - 1, c) + weight[c][r]
  }

  /** The least distance in row `r` among the (up to three) columns adjacent
      to `c`. */
  function LeastAdjacent(weight: seq<seq<real>>, w: int, h: int, r: int, c: int): real
    requires IsField(weight, w, h) && 0 <= r < h && 0 <= c < w
    decreases r, 1
  {
    var lo := Lo(c);
    var hi := Hi(c, w);
    var a := Dist(weight, w, h, r, lo);
    var b := if lo + 1 < hi then RealMin(a, Dist(weight, w, h, r, lo + 1)) else a;
    if lo + 2 < hi then RealMin(b, Dist(weight, w, h, r, lo + 2)) else b
  }

  /** The source's `edgeTo[c][r]` for `r >= 1`: of the (up to three) columns
      of row `r - 1` adjacent to `c`, relaxed left to right with a strict
      comparison, the one with the least distance, the lowest on a tie. */
  function Parent(weight: seq<seq<real>>, w: int, h: int, r: int, c: int): (p: int)
    requires IsField(weight, w, h) && 1 <= r < h && 0 <= c < w
    ensures Lo(c) <= p < Hi(c, w)
  {
    var lo := Lo(c);
    var hi := Hi(c, w);
    var m := if lo + 1 < hi && Dist(weight, w, h, r - 1, lo) > Dist(weight, w, h, r - 1, lo + 1) then lo + 1 else lo;
    if lo + 2 < hi && Dist(weight, w, h, r - 1, m) > Dist(weight, w, h, r - 1, lo + 2) then lo + 2 else m
  }

  /** Each distance is its parent's distance plus the pixel's own weight. */
  lemma DistViaParent(weight: seq<seq<real>>, w: int, h: int, r: int, c: int)
    requires IsField(weight, w, h) && 1 <= r < h && 0 <= c < w
    ensures Dist(weight, w, h, r, c) == Dist(weight, w, h, r - 1, Parent(weight, w, h, r, c)) + weight[c][r]
  {
  }

  /** No column adjacent to `c` is closer than `c`'s parent. */
  lemma ParentIsLeast(weight: seq<seq<real>>, w: int, h: int, r: int, c: int, v: int)
    requires IsField(weight, w, h) && 1 <= r < h && 0 <= c < w && Lo(c) <= v < Hi(c, w)
    ensures Dist(weight, w, h, r - 1, Parent(weight, w, h, r, c)) <= Dist(weight, w, h, r - 1, v)
  {
  }

  /** Every column adjacent to `c` and left of its parent is strictly farther. */
  lemma ParentIsFirst(weight: seq<seq<real>>, w: int, h: int, r: int, c: int, v: int)
    requires IsField(weight, w, h) && 1 <= r < h && 0 <= c < w && Lo(c) <= v < Hi(c, w)
    ensures v < Parent(weight, w, h, r, c) ==> Dist(weight, w, h, r - 1, Parent(weight, w, h, r, c)) < Dist(weight, w, h, r - 1, v)
  {
  }

  /** Given the previous row of distances, `Parent` is its first minimum
      over the columns adjacent to `c`. */
  lemma ParentIsFirstMin(weight: seq<seq<real>>, w: int, h: int, r: int, c: int, prev: seq<real>)
    requires IsField(weight, w, h) && 1 <= r < h && 0 <= c < w
    requires |prev| == w && forall v :: 0 <= v < w ==> prev[v] == Dist(weight, w, h, r - 1, v)
    ensures Parent(weight, w, h, r, c) == FirstMin(prev, Lo(c), Hi(c, w))
  {
    var p := Parent(weight, w, h, r, c);
    var m := FirstMin(prev, Lo(c), Hi(c, w));
    ParentIsLeast(weight, w, h, r, c, m);
    ParentIsFirst(weight, w, h, r, c, m);
    assert prev[m] <= prev[p];
  }

  /** The path the source reads off `edgeTo` from `(c, r)` back to row 0. */
  function Trace(weight: seq<seq<real>>, w: int, h: int, r: int, c: int): (p: seq<int>)
    requires IsField(weight, w, h) && 0 <= r < h && 0 <= c < w
    ensures |p| == r + 1 && p[r] == c && IsPath(p, w)
    decreases r
  {
    if r == 0 then [c]
    else
      var q := Trace(weight, w, h, r - 1, Parent(weight, w, h, r, c));
      assert forall i :: 1 <= i < r ==> Step(q + [c], i) == Step(q, i);
      assert Step(q + [c], r) == c - Parent(weight, w, h, r, c);
      q + [c]
  }

  /** Every prefix of a traced path is itself traced. */
  lemma {:induction false} TracePrefix(weight: seq<seq<real>>, w: int, h: int, r: int, c: int, i: int)
    requires IsField(weight, w, h) && 0 <= i <= r < h && 0 <= c < w
    ensures Trace(weight, w, h, r, c)[..i + 1] == Trace(weight, w, h, i, Trace(weight, w, h, r, c)[i])
    decreases r
  {
    var p := Trace(weight, w, h, r, c);
    if i == r {
      assert p[..i + 1] == p;
    } else {
      var pc := Parent(weight, w, h, r, c);
      var q := Trace(weight, w, h, r - 1, pc);
      assert p == q + [c];
      TracePrefix(weight, w, h, r - 1, pc, i);
      assert p[..i + 1] == q[..i + 1];
    }
  }

  /** Each entry of a traced path is the recorded parent of the next. */
  lemma {:induction false} TraceParents(weight: seq<seq<real>>, w: int, h: int, r: int, c: int, i: int)
    requires IsField(weight, w, h) && 0 <= r < h && 0 <= c < w && 1 <= i <= r
    ensures Trace(weight, w, h, r, c)[i - 1] == Parent(weight, w, h, i, Trace(weight, w, h, r, c)[i])
    decreases r
  {
    var pc := Parent(weight, w, h, r, c);
    var q := Trace(weight, w, h, r - 1, pc);
    assert Trace(weight, w, h, r, c) == q + [c];
    if i < r {
      TraceParents(weight, w, h, r - 1, pc, i);
    }
  }

  /** Extending a path by one pixel adds that pixel's weight. */
  lemma CostSnoc(weight: seq<seq<real>>, w: int, h: int, q: seq<int>, c: int)
    requires IsField(weight, w, h) && 1 <= |q| < h && InColumns(q, w) && 0 <= c < w
    ensures InColumns(q + [c], w)
    ensures Cost(weight, w, h, q + [c]) == Cost(weight, w, h, q) + weight[c][|q|]
  {
    assert (q + [c])[..|q|] == q;
  }

  /** The path traced from `(c, r)` costs exactly `distTo[c][r]`. */
  lemma {:induction false} TraceCost(weight: seq<seq<real>>, w: int, h: int, r: int, c: int)
    requires IsField(weight, w, h) && 0 <= r < h && 0 <= c < w
    ensures Cost(weight, w, h, Trace(weight, w, h, r, c)) == Dist(weight, w, h, r, c)
    decreases r
  {
    if r > 0 {
      var pc := Parent(weight, w, h, r, c);
      var q := Trace(weight, w, h, r - 1, pc);
      TraceCost(weight, w, h, r - 1, pc);
      CostSnoc(weight, w, h, q, c);
      DistViaParent(weight, w, h, r, c);
    }
  }

  /** The column the source's final scan picks among the first `k` columns
      of the last row: the first with the least distance. */
  function BestEnd(weight: seq<seq<real>>, w: int, h: int, k: int): (e: int)
    requires IsField(weight, w, h) && 1 <= k <= w && h >= 1
    ensures 0 <= e < k
  {
    if k == 1 then 0
    else
      var e := BestEnd(weight, w, h, k - 1);
      if Dist(weight, w, h, h - 1, e) > Dist(weight, w, h, h - 1, k - 1) then k - 1 else e
  }

  /** No column of the scanned prefix ends closer than the chosen one. */
  lemma {:induction false} BestEndIsLeast(weight: seq<seq<real>>, w: int, h: int, k: int, v: int)
    requires IsField(weight, w, h) && 1 <= k <= w && h >= 1 && 0 <= v < k
    ensures Dist(weight, w, h, h - 1, BestEnd(weight, w, h, k)) <= Dist(weight, w, h, h - 1, v)
  {
    if v < k - 1 {
      BestEndIsLeast(weight, w, h, k - 1, v);
    }
  }

  /** Every column left of the chosen one ends strictly farther. */
  lemma {:induction false} BestEndIsFirst(weight: seq<seq<real>>, w: int, h: int, k: int, v: int)
    requires IsField(weight, w, h) && 1 <= k <= w && h >= 1 && 0 <= v < k
    ensures v < BestEnd(weight, w, h, k) ==> Dist(weight, w, h, h - 1, BestEnd(weight, w, h, k)) < Dist(weight, w, h, h - 1, v)
  {
    if 1 < k && v < k - 1 {
      BestEndIsFirst(weight, w, h, k - 1, v);
      BestEndIsLeast(weight, w, h, k - 1, v);
    }
  }

  /** The seam the source returns: traced back from the best end. */
  function MinSeam(weight: seq<seq<real>>, w: int, h: int): (p: seq<int>)
    requires IsField(weight, w, h) && w >= 1 && h >= 1
    ensures |p| == h && IsPath(p, w)
  {
    Trace(weight, w, h, h - 1, BestEnd(weight, w, h, w))
  }

  /** No path to `(c, r)` is cheaper than `distTo[c][r]`. */
  lemma {:induction false} DistIsLowerBound(weight: seq<seq<real>>, w: int, h: int, p: seq<int>)
    requires IsField(weight, w, h) && 1 <= |p| <= h && IsPath(p, w)
    ensures Dist(weight, w, h, |p| - 1, p[|p| - 1]) <= Cost(weight, w, h, p)
    decreases |p|
  {
    if |p| > 1 {
      var r := |p| - 1;
      var q := p[..r];
      assert forall i :: 1 <= i < r ==> Step(q, i) == Step(p, i);
      assert -1 <= Step(p, r) <= 1;
      DistIsLowerBound(weight, w, h, q);
      ParentIsLeast(weight, w, h, r, p[r], q[r - 1]);
      DistViaParent(weight, w, h, r, p[r]);
      CostSnoc(weight, w, h, q, p[r]);
      assert q + [p[r]] == p;
    }
  }

  /** The returned seam is a cheapest seam: no connected path through all
      `h` rows costs less. */
  lemma MinSeamIsOptimal(weight: seq<seq<real>>, w: int, h: int, q: seq<int>)
    requires IsField(weight, w, h) && w >= 1 && h >= 1
    requires |q| == h && IsPath(q, w)
    ensures Cost(weight, w, h, MinSeam(weight, w, h)) <= Cost(weight, w, h, q)
  {
    TraceCost(weight, w, h, h - 1, BestEnd(weight, w, h, w));
    BestEndIsLeast(weight, w, h, w, q[h - 1]);
    DistIsLowerBound(weight, w, h, q);
  }

  /** Ties at the bottom go to the lowest column: every seam ending left of
      the returned one costs strictly more. */
  lemma MinSeamEndTieBreak(weight: seq<seq<real>>, w: int, h: int, q: seq<int>)
    requires IsField(weight, w, h) && w >= 1 && h >= 1
    requires |q| == h && IsPath(q, w)
    requires q[h - 1] < MinSeam(weight, w, h)[h - 1]
    ensures Cost(weight, w, h, MinSeam(weight, w, h)) < Cost(weight, w, h, q)
  {
    TraceCost(weight, w, h, h - 1, BestEnd(weight, w, h, w));
    BestEndIsFirst(weight, w, h, w, q[h - 1]);
    DistIsLowerBound(weight, w, h, q);
  }

  /** Each pixel of the returned seam above the last row is the recorded
      parent of the pixel below it. */
  lemma MinSeamParents(weight: seq<seq<real>>, w: int, h: int, i: int)
    requires IsField(weight, w, h) && w >= 1 && 1 <= i < h
    ensures MinSeam(weight, w, h)[i - 1] == Parent(weight, w, h, i, MinSeam(weight, w, h)[i])
  {
    TraceParents(weight, w, h, h - 1, BestEnd(weight, w, h, w), i);
  }

  /** The first `i` pixels of the returned seam cost the distance of its
      pixel in row `i - 1`. */
  lemma MinSeamPrefixCost(weight: seq<seq<real>>, w: int, h: int, i: int)
    requires IsField(weight, w, h) && w >= 1 && 1 <= i < h
    ensures Cost(weight, w, h, MinSeam(weight, w, h)[..i]) == Dist(weight, w, h, i - 1, MinSeam(weight, w, h)[i - 1])
  {
    var end := BestEnd(weight, w, h, w);
    var p := Trace(weight, w, h, h - 1, end);
    TracePrefix(weight, w, h, h - 1, end, i - 1);
    TraceCost(weight, w, h, i - 1, p[i - 1]);
  }

  /** Ties between predecessors go to the lowest column: at every row, any
      path reaching a column left of the seam's own predecessor, and adjacent
      to the seam's pixel, already costs strictly more than the seam's
      prefix. */
  lemma MinSeamParentTieBreak(weight: seq<seq<real>>, w: int, h: int, i: int, q: seq<int>)
    requires IsField(weight, w, h) && w >= 1 && h >= 1
    requires 1 <= i < h && |q| == i && IsPath(q, w)
    requires q[i - 1] < MinSeam(weight, w, h)[i - 1]
    requires -1 <= MinSeam(weight, w, h)[i] - q[i - 1] <= 1
    ensures Cost(weight, w, h, MinSeam(weight, w, h)[..i]) < Cost(weight, w, h, q)
  {
    var p := MinSeam(weight, w, h);
    MinSeamParents(weight, w, h, i);
    MinSeamPrefixCost(weight, w, h, i);
    ParentIsFirst(weight, w, h, i, p[i], q[i - 1]);
    DistIsLowerBound(weight, w, h, q);
  }

  /** A one-row field yields the seam `[0]`: row 0 is all zeros and the
      first minimum wins. */
  lemma MinSeamOneRow(weight: seq<seq<real>>, w: int)
    requires IsField(weight, w, 1) && w >= 1
    ensures MinSeam(weight, w, 1) == [0]
  {
    BestEndIsFirst(weight, w, 1, w, 0);
  }

  // ---------------------------------------------------------------------
  // The source's loop nest.
  // ---------------------------------------------------------------------

  /** The content of `distTo[x][r+1]` and `edgeTo[x][r+1]` once every column
      `v < c` of row `r` has been relaxed: infinity and -1 if none of them is
      adjacent to `x`, else the best of them (the first on a tie). */
  ghost predicate RelaxedBelow(prev: seq<real>, wt: real, w: int, x: int, c: int, d: Option<real>, from: int)
    requires |prev| == w && 0 <= x < w
  {
    var hi := Min(Hi(x, w), c);
    if hi <= Lo(x) then d == None && from == -1
    else from == FirstMin(prev, Lo(x), hi) && d == Some(prev[from] + wt)
  }

  /** Relaxing the edge from column `c` (adjacent to `x`) extends the
      relaxed prefix of `x` by one column. */
  lemma RelaxStep(prev: seq<real>, wt: real, w: int, x: int, c: int, d: Option<real>, from: int)
    requires |prev| == w && 0 <= x < w && 0 <= c < w && Lo(x) <= c < Hi(x, w)
    requires RelaxedBelow(prev, wt, w, x, c, d, from)
    ensures d.None? || d.value > prev[c] + wt ==> RelaxedBelow(prev, wt, w, x, c + 1, Some(prev[c] + wt), c)
    ensures !(d.None? || d.value > prev[c] + wt) ==> RelaxedBelow(prev, wt, w, x, c + 1, d, from)
  {
    if c > Lo(x) {
      assert Min(Hi(x, w), c) == c;
    }
  }

  /** Columns not adjacent to `x` do not change its relaxed state. */
  lemma RelaxSkip(prev: seq<real>, wt: real, w: int, x: int, c: int, d: Option<real>, from: int)
    requires |prev| == w && 0 <= x < w && 0 <= c < w && !(Lo(c) <= x < Hi(c, w))
    requires RelaxedBelow(prev, wt, w, x, c, d, from)
    ensures RelaxedBelow(prev, wt, w, x, c + 1, d, from)
  {
  }

  /** One pass of the source's relaxation from a row with distances `prev`
      into the next row, whose pixels weigh `wt`: every edge, taken in column
      order, each column's targets left to right. `None` stands for
      `Double.POSITIVE_INFINITY`, `-1` for an unset `edgeTo`. */
  method Relax(prev: seq<real>, wt: seq<real>, w: int) returns (next: seq<Option<real>>, from: seq<int>)
    requires |prev| == w && |wt| == w
    ensures |next| == w && |from| == w
    ensures forall x :: 0 <= x < w ==> RelaxedBelow(prev, wt[x], w, x, w, next[x], from[x])
  {
    next := seq(w, _ => None);
    from := seq(w, _ => -1);
    var c := 0;
    while c < w
      invariant 0 <= c <= w
      invariant |next| == w && |from| == w
      invariant forall x :: 0 <= x < w ==> RelaxedBelow(prev, wt[x], w, x, c, next[x], from[x])
    {
      var adj := Adjacent(c, w);
      var k := 0;
      while k < |adj|
        invariant 0 <= k <= |adj|
        invariant |next| == w && |from| == w
        invariant forall x :: 0 <= x < w ==>
          RelaxedBelow(prev, wt[x], w, x, if Lo(c) <= x < Lo(c) + k then c + 1 else c, next[x], from[x])
      {
        var x := adj[k];
        var cand := prev[c] + wt[x];
        RelaxStep(prev, wt[x], w, x, c, next[x], from[x]);
        if next[x].None? || next[x].value > cand {
          next := next[x := Some(cand)];
          from := from[x := c];
        }
        k := k + 1;
      }
      forall x | 0 <= x < w
        ensures RelaxedBelow(prev, wt[x], w, x, c + 1, next[x], from[x])
      {
        if !(Lo(c) <= x < Hi(c, w)) {
          RelaxSkip(prev, wt[x], w, x, c, next[x], from[x]);
        }
      }
      c := c + 1;
    }
  }

  /** Relaxing all of row `r` yields the rows `r + 1` of `distTo` and
      `edgeTo`. */
  method RelaxRow(weight: seq<seq<real>>, w: int, h: int, r: int, prev: seq<real>)
    returns (row: seq<real>, from: seq<int>)
    requires IsField(weight, w, h) && w >= 1 && 0 <= r < h - 1
    requires |prev| == w && forall x :: 0 <= x < w ==> prev[x] == Dist(weight, w, h, r, x)
    ensures |row| == w && |from| == w
    ensures forall x :: 0 <= x < w ==> row[x] == Dist(weight, w, h, r + 1, x)
    ensures forall x :: 0 <= x < w ==> from[x] == Parent(weight, w, h, r + 1, x)
  {
    var wt := seq(w, x requires 0 <= x < w => weight[x][r + 1]);
    var next;
    next, from := Relax(prev, wt, w);
    assert forall x :: 0 <= x < w ==> wt[x] == weight[x][r + 1];
    row := seq(w, x requires 0 <= x < w => if next[x].Some? then next[x].value else 0.0);
    forall x | 0 <= x < w
      ensures from[x] == Parent(weight, w, h, r + 1, x)
      ensures row[x] == Dist(weight, w, h, r + 1, x)
    {
      RelaxedIsDist(weight, w, h, r, prev, x, next[x], from[x]);
    }
  }

  /** A fully relaxed column holds its reference distance and parent. */
  lemma RelaxedIsDist(weight: seq<seq<real>>, w: int, h: int, r: int, prev: seq<real>, x: int, d: Option<real>, from: int)
    requires IsField(weight, w, h) && 0 <= r < h - 1 && 0 <= x < w
    requires |prev| == w && forall v :: 0 <= v < w ==> prev[v] == Dist(weight, w, h, r, v)
    requires RelaxedBelow(prev, weight[x][r + 1], w, x, w, d, from)
    ensures from == Parent(weight, w, h, r + 1, x)
    ensures d == Some(Dist(weight, w, h, r + 1, x))
  {
    assert Min(Hi(x, w), w) == Hi(x, w);
    ParentIsFirstMin(weight, w, h, r + 1, x, prev);
    DistViaParent(weight, w, h, r + 1, x);
  }

  /** The source's scan of the last row for the end of the seam: the first
      column with the least distance. */
  method LeastEnd(weight: seq<seq<real>>, w: int, h: int, last: seq<real>) returns (end: int)
    requires IsField(weight, w, h) && w >= 1 && h >= 1
    requires |last| == w && forall x :: 0 <= x < w ==> last[x] == Dist(weight, w, h, h - 1, x)
    ensures end == BestEnd(weight, w, h, w)
  {
    var minDist: Option<real> := None;
    end := -1;
    var c := 0;
    while c < w
      invariant 0 <= c <= w
      invariant c == 0 ==> minDist == None
      invariant c > 0 ==> end == BestEnd(weight, w, h, c) && minDist == Some(last[end])
    {
      if minDist.None? || last[c] < minDist.value {
        minDist := Some(last[c]);
        end := c;
      }
      c := c + 1;
    }
  }

  /** The source's backtracking: follow `edgeTo` from the chosen end up to
      row 0, filling the seam from the bottom. */
  method FollowEdges(weight: seq<seq<real>>, w: int, h: int, edge: seq<seq<int>>, end: int)
    returns (path: seq<int>)
    requires IsField(weight, w, h) && 0 <= end < w && h >= 1
    requires |edge| == h && forall i :: 0 <= i < h ==> |edge[i]| == w
    requires forall i, x :: 1 <= i < h && 0 <= x < w ==> edge[i][x] == Parent(weight, w, h, i, x)
    ensures path == Trace(weight, w, h, h - 1, end)
  {
    ghost var p := Trace(weight, w, h, h - 1, end);
    path := seq(h, _ => 0);
    var col := end;
    var i := h - 1;
    while i >= 0
      invariant -1 <= i <= h - 1
      invariant |path| == h
      invariant forall j :: i < j < h ==> path[j] == p[j]
      invariant i >= 0 ==> col == p[i]
      decreases i + 1
    {
      path := path[i := col];
      if i >= 1 {
        TraceParents(weight, w, h, h - 1, end, i);
        col := edge[i][col];
      }
      i := i - 1;
    }
  }

  /** The source's `ShortestPath`: relax every edge in row order, pick the
      first cheapest end, and follow the recorded predecessors back up.
      `dist` and `edge` hold the rows of `distTo` and `edgeTo` computed so
      far. */
  method ShortestPath(weight: seq<seq<real>>, w: int, h: int) returns (path: seq<int>)
    requires IsField(weight, w, h) && w >= 1 && h >= 1
    ensures path == MinSeam(weight, w, h)
    ensures |path| == h && IsPath(path, w)
  {
    var dist: seq<seq<real>> := [seq(w, _ => 0.0)];
    var edge: seq<seq<int>> := [seq(w, _ => 0)];
    var r := 0;
    while r < h - 1
      invariant 0 <= r <= h - 1
      invariant |dist| == r + 1 && |edge| == r + 1
      invariant forall i :: 0 <= i <= r ==> |dist[i]| == w && |edge[i]| == w
      invariant forall x :: 0 <= x < w ==> dist[r][x] == Dist(weight, w, h, r, x)
      invariant forall i, x :: 1 <= i <= r && 0 <= x < w ==> edge[i][x] == Parent(weight, w, h, i, x)
    {
      var row, from := RelaxRow(weight, w, h, r, dist[r]);
      dist := dist + [row];
      edge := edge + [from];
      r := r + 1;
    }
    var end := LeastEnd(weight, w, h, dist[h - 1]);
    path := FollowEdges(weight, w, h, edge, end);
  }
}
