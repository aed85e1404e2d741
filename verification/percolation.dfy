/**
 The percolation grid: an `n`-by-`n` grid of sites, each blocked or open,
 addressed by 1-based `(row, col)`, together with a union-find over the
 `n*n` sites and two virtual sites, the top `0` and the bottom `n*n + 1`.
 A site is full when it is open and connected to the virtual top; the
 system percolates when the virtual top is connected to the virtual bottom.

 The union-find is the module `UnionClosure`: the grid keeps the sequence
 of `union` calls it made, and connectivity is computed from that.
 */
module Percolation {
  import opened Results
  import opened UnionClosure

  /** The grid of side `n`: `openFlags` is the `(n+1)`-by-`(n+1)` array of open
      flags, of which row 0 and column 0 are never used; `unions` are the
      union-find calls made so far, in order. */
  datatype Grid = Grid(n: int, openFlags: seq<seq<bool>>, unions: seq<Pair>)

  /** The number of sites in the rows above `row`, that is `(row - 1) * n`
      (see `RowStartIsProduct`), counted row by row so that the arithmetic
      stays linear. */
  function RowStart(n: int, row: int): (s: int)
    ensures n >= 0 ==> s >= 0
    decreases row
  {
    if row <= 1 then 0 else RowStart(n, row - 1) + n
  }

  /** The number of grid sites, `n * n` (the source's `(int) Math.pow(n, 2.0)`). */
  function Square(n: int): (s: nat)
  {
    RowStart(n, n + 1)
  }

  /** The number of union-find sites: the grid plus the two virtual sites. */
  function Sites(n: int): int
  {
    Square(n) + 2
  }

  /** The virtual bottom site. */
  function Bottom(n: int): int
  {
    Square(n) + 1
  }

  /** `RowStart` is the product the source computes. */
  lemma {:induction false} RowStartIsProduct(n: int, row: int)
    requires row >= 1
    ensures RowStart(n, row) == (row - 1) * n
    decreases row
  {
    if row > 1 {
      RowStartIsProduct(n, row - 1);
    }
  }

  /** `Square` is `n * n`. */
  lemma SquareIsProduct(n: int)
    requires n >= 0
    ensures Square(n) == n * n
  {
    RowStartIsProduct(n, n + 1);
  }

  /** Each row of the grid starts `n` sites after the previous one. */
  lemma {:induction false} RowStartMonotone(n: int, r1: int, r2: int)
    requires n >= 0 && 1 <= r1 <= r2
    ensures RowStart(n, r1) <= RowStart(n, r2)
    ensures r1 < r2 ==> RowStart(n, r1) + n <= RowStart(n, r2)
    decreases r2
  {
    if r1 < r2 {
      RowStartMonotone(n, r1, r2 - 1);
    }
  }

  /** `(row, col)` names a site of the grid. */
  predicate InGrid(n: int, row: int, col: int)
  {
    1 <= row <= n && 1 <= col <= n
  }

  lemma SquareBounds(n: int)
    requires n >= 1
    ensures n <= Square(n)
  {
    RowStartMonotone(n, 1, n + 1);
  }

  /** The object invariant: the shape of the flag array, row and column 0
      never opened, every recorded union within the union-find's sites, and
      the construction's boundary unions recorded first. */
  predicate Valid(g: Grid)
  {
    g.n >= 1 && |g.openFlags| == g.n + 1
    && (forall i :: 0 <= i < |g.openFlags| ==> |g.openFlags[i]| == g.n + 1 && !g.openFlags[i][0])
    && (forall j :: 0 <= j < |g.openFlags[0]| ==> !g.openFlags[0][j])
    && InRange(Sites(g.n), g.unions)
    && BoundaryUnions(g.n, g.n) <= g.unions
  }

  // ---------------------------------------------------------------------
  // Construction
  // ---------------------------------------------------------------------

  /** The unions made by the first `i` rounds of the constructor's loop: round
      `k` joins the virtual top with site `k` of the first row and the
      virtual bottom with site `n*n - k + 1`, counted from the end of the
      last row. */
  function BoundaryUnions(n: int, i: nat): (u: seq<Pair>)
    ensures |u| == 2 * i
  {
    if i == 0 then []
    else BoundaryUnions(n, i - 1) + [(0, i), (Square(n) + 1, Square(n) - i + 1)]
  }

  /** Round `k + 1` of the constructor's loop. */
  lemma {:induction false} BoundaryUnionsAt(n: int, i: nat, k: int)
    requires 0 <= k < i
    ensures BoundaryUnions(n, i)[2 * k] == (0, k + 1)
    ensures BoundaryUnions(n, i)[2 * k + 1] == (Square(n) + 1, Square(n) - k)
  {
    if k < i - 1 {
      BoundaryUnionsAt(n, i - 1, k);
    }
  }

  /** The boundary unions stay within the union-find's sites. */
  lemma BoundaryUnionsInRange(n: int)
    requires n >= 1
    ensures InRange(Sites(n), BoundaryUnions(n, n))
  {
    var u := BoundaryUnions(n, n);
    SquareBounds(n);
    forall j | 0 <= j < |u|
      ensures 0 <= u[j].0 < Sites(n) && 0 <= u[j].1 < Sites(n)
    {
      BoundaryUnionsAt(n, n, j / 2);
    }
  }

  /** The source's constructor: `n <= 0` is rejected; otherwise every site is
      blocked and the boundary unions are recorded. */
  function New(n: int): (r: Result<Grid>)
    ensures r.Ok? <==> n > 0
    ensures r.Err? ==> r.error == IllegalArgument
    ensures r.Ok? ==> Valid(r.value) && r.value.n == n
    ensures r.Ok? ==> forall row, col :: InGrid(n, row, col) ==> !r.value.openFlags[row][col]
    ensures r.Ok? ==> r.value.unions == BoundaryUnions(n, n)
  {
    if n <= 0 then Err(IllegalArgument)
    else
      BoundaryUnionsInRange(n);
      Ok(Grid(n, seq(n + 1, _ => seq(n + 1, _ => false)), BoundaryUnions(n, n)))
  }

  // ---------------------------------------------------------------------
  // Site numbering
  // ---------------------------------------------------------------------

  /** The exception `indexCheck` raises for `(row, col)`, if any. */
  function IndexCheck(n: int, row: int, col: int): (e: Option<Exception>)
  {
    if row <= 0 || col <= 0 || row > n || col > n then Some(IndexOutOfBounds) else None
  }

  /** The union-find site of grid site `(row, col)`: for a site of the
      grid, `(row - 1) * n + col`, numbering the sites row by row within
      `1 .. n*n`, clear of the two virtual sites. Only sites of the grid
      are ever numbered. */
  function XyTo1D(n: int, row: int, col: int): (id: int)
    ensures n >= 1 && InGrid(n, row, col) ==> 1 <= id <= Square(n)
  {
    assert n >= 1 && InGrid(n, row, col) ==> RowStart(n, row) + n <= Square(n) by {
      if n >= 1 && InGrid(n, row, col) {
        RowStartMonotone(n, row, n + 1);
      }
    }
    RowStart(n, row) + col
  }

  /** Distinct grid sites get distinct union-find sites, none of them a
      virtual one. */
  lemma XyTo1DInjective(n: int, r1: int, c1: int, r2: int, c2: int)
    requires n >= 1 && InGrid(n, r1, c1) && InGrid(n, r2, c2)
    ensures XyTo1D(n, r1, c1) == XyTo1D(n, r2, c2) <==> (r1, c1) == (r2, c2)
    ensures XyTo1D(n, r1, c1) != 0 && XyTo1D(n, r1, c1) != Bottom(n)
  {
    if r1 < r2 {
      RowStartMonotone(n, r1, r2);
    } else if r2 < r1 {
      RowStartMonotone(n, r2, r1);
    }
  }

  // ---------------------------------------------------------------------
  // Queries
  // ---------------------------------------------------------------------

  /** The source's `isOpen`. */
  function IsOpen(g: Grid, row: int, col: int): (r: Result<bool>)
    requires Valid(g)
    ensures r.Ok? <==> InGrid(g.n, row, col)
    ensures r.Err? ==> r.error == IndexOutOfBounds
  {
    if IndexCheck(g.n, row, col).Some? then Err(IndexOutOfBounds)
    else Ok(g.openFlags[row][col])
  }

  /** The source's `isFull`. */
  function IsFull(g: Grid, row: int, col: int): (r: Result<bool>)
    requires Valid(g)
    ensures r.Ok? <==> InGrid(g.n, row, col)
    ensures r.Err? ==> r.error == IndexOutOfBounds
  {
    if IndexCheck(g.n, row, col).Some? then Err(IndexOutOfBounds)
    else
      Ok(Connected(Sites(g.n), g.unions, XyTo1D(g.n, row, col), 0) && g.openFlags[row][col])
  }

  /** The source's `percolates`. */
  function Percolates(g: Grid): bool
    requires Valid(g)
  {
    Connected(Sites(g.n), g.unions, 0, Bottom(g.n))
  }

  /** A site is full exactly when it is open and a chain of recorded unions
      joins it to the virtual top; in particular a full site is open. */
  lemma IsFullMeaning(g: Grid, row: int, col: int)
    requires Valid(g) && InGrid(g.n, row, col)
    ensures IsFull(g, row, col).Ok?
    ensures IsFull(g, row, col).value <==>
      IsOpen(g, row, col) == Ok(true) && Joined(g.unions, XyTo1D(g.n, row, col), 0)
  {
    ConnectedIffJoined(Sites(g.n), g.unions, XyTo1D(g.n, row, col), 0);
  }

  /** The system percolates exactly when a chain of recorded unions joins
      the two virtual sites. */
  lemma PercolatesMeaning(g: Grid)
    requires Valid(g)
    ensures Percolates(g) <==> Joined(g.unions, 0, Bottom(g.n))
  {
    ConnectedIffJoined(Sites(g.n), g.unions, 0, Bottom(g.n));
  }

  /** Every site of the first row, open or not, is connected to the virtual
      top ... */
  lemma TopRowConnected(g: Grid, col: int)
    requires Valid(g) && 1 <= col <= g.n
    ensures Connected(Sites(g.n), g.unions, XyTo1D(g.n, 1, col), 0)
  {
    var k := 2 * (col - 1);
    BoundaryUnionsAt(g.n, g.n, col - 1);
    assert g.unions[k] == BoundaryUnions(g.n, g.n)[k];
    RecordedConnected(Sites(g.n), g.unions, k);
  }

  /** ... and every site of the last row to the virtual bottom. */
  lemma BottomRowConnected(g: Grid, col: int)
    requires Valid(g) && 1 <= col <= g.n
    ensures Connected(Sites(g.n), g.unions, XyTo1D(g.n, g.n, col), Bottom(g.n))
  {
    var k := 2 * (g.n - col) + 1;
    BoundaryUnionsAt(g.n, g.n, g.n - col);
    assert g.unions[k] == BoundaryUnions(g.n, g.n)[k];
    RecordedConnected(Sites(g.n), g.unions, k);
    assert RowStart(g.n, g.n + 1) == RowStart(g.n, g.n) + g.n;
  }

  /** A one-site grid percolates before its only site is opened: that site
      is joined to both virtual sites by construction. */
  lemma SingleSitePercolates()
    ensures New(1).Ok? && Percolates(New(1).value)
    ensures IsOpen(New(1).value, 1, 1) == Ok(false)
  {
    TopRowConnected(New(1).value, 1);
    BottomRowConnected(New(1).value, 1);
  }

  /** For `n >= 2` a boundary union never crosses between the top side
      (the virtual top and the first row, `0 .. n`) and the rest. */
  lemma BoundarySides(n: int, k: int)
    requires n >= 2 && 0 <= k < 2 * n
    ensures (BoundaryUnions(n, n)[k].0 <= n) == (BoundaryUnions(n, n)[k].1 <= n)
  {
    BoundaryUnionsAt(n, n, k / 2);
    assert Square(n) == RowStart(n, n) + n;
    assert RowStart(n, n) == RowStart(n, n - 1) + n;
  }

  /** Linked sites of a new grid lie on the same side. */
  lemma LinkStaysSide(n: int, a: int, b: int)
    requires n >= 2 && Linked(BoundaryUnions(n, n), a, b)
    ensures (a <= n) == (b <= n)
  {
    var u := BoundaryUnions(n, n);
    if (a, b) in u {
      var k :| 0 <= k < |u| && u[k] == (a, b);
      BoundarySides(n, k);
    } else {
      var k :| 0 <= k < |u| && u[k] == (b, a);
      BoundarySides(n, k);
    }
  }

  /** A chain of a new grid's unions that starts on the top side ends there. */
  lemma {:induction false} WalkFromTopStays(n: int, w: seq<int>)
    requires n >= 2 && IsWalk(BoundaryUnions(n, n), w) && w[0] <= n
    ensures w[|w| - 1] <= n
    decreases |w|
  {
    if |w| > 1 {
      var v := w[..|w| - 1];
      assert IsWalk(BoundaryUnions(n, n), v) by {
        forall i | 1 <= i < |v|
          ensures Linked(BoundaryUnions(n, n), v[i - 1], v[i])
        {
          assert v[i - 1] == w[i - 1] && v[i] == w[i];
        }
      }
      WalkFromTopStays(n, v);
      LinkStaysSide(n, w[|w| - 2], w[|w| - 1]);
    }
  }

  /** A new grid with more than one row does not percolate: the constructor
      joins the top only to the first row and the bottom only to the last. */
  lemma NewDoesNotPercolate(n: int)
    requires n >= 2
    ensures New(n).Ok? && !Percolates(New(n).value)
  {
    var g := New(n).value;
    assert Bottom(n) > n by {
      assert Square(n) == RowStart(n, n) + n;
    }
    forall w | IsWalk(g.unions, w) && w[0] == 0
      ensures w[|w| - 1] != Bottom(n)
    {
      WalkFromTopStays(n, w);
    }
    PercolatesMeaning(g);
  }

  // ---------------------------------------------------------------------
  // Opening a site
  // ---------------------------------------------------------------------

  /** The four candidates `neighbour` lists: above, below, left, right. */
  function Neighbours(row: int, col: int): seq<(int, int)>
  {
    [(row - 1, col), (row + 1, col), (row, col - 1), (row, col + 1)]
  }

  /** The unions `open` makes: site `(row, col)` with each listed candidate
      that is in the grid and open, in order. A candidate out of the grid
      makes `isOpen` throw, which `open` catches and skips. */
  function Links(g: Grid, row: int, col: int, nbs: seq<(int, int)>): (u: seq<Pair>)
    requires Valid(g) && InGrid(g.n, row, col)
    ensures InRange(Sites(g.n), u)
    ensures forall x :: x in nbs && OpenSite(g, x.0, x.1) ==>
      (XyTo1D(g.n, row, col), XyTo1D(g.n, x.0, x.1)) in u
    ensures forall k :: 0 <= k < |u| ==> JoinsOpen(g, row, col, nbs, u[k])
  {
    if |nbs| == 0 then []
    else
      var (r, c) := nbs[0];
      var rest := Links(g, row, col, nbs[1..]);
      JoinsOpenGrows(g, row, col, nbs, rest);
      if IndexCheck(g.n, r, c).None? && g.openFlags[r][c] then
        assert JoinsOpen(g, row, col, nbs, (XyTo1D(g.n, row, col), XyTo1D(g.n, r, c))) by {
          assert nbs[0] in nbs;
        }
        [(XyTo1D(g.n, row, col), XyTo1D(g.n, r, c))] + rest
      else rest
  }

  /** Site `(r, c)` is in the grid and open. */
  predicate OpenSite(g: Grid, r: int, c: int)
  {
    InGrid(g.n, r, c) && r < |g.openFlags| && c < |g.openFlags[r]| && g.openFlags[r][c]
  }

  /** Union-find site `site` is a candidate of `nbs` that is in the grid and
      open. */
  predicate OpenAmong(g: Grid, nbs: seq<(int, int)>, site: int)
  {
    exists x :: x in nbs && OpenSite(g, x.0, x.1) && site == XyTo1D(g.n, x.0, x.1)
  }

  /** Union `p` joins site `(row, col)` to a candidate of `nbs` that is in
      the grid and open. */
  predicate JoinsOpen(g: Grid, row: int, col: int, nbs: seq<(int, int)>, p: Pair)
  {
    p.0 == XyTo1D(g.n, row, col) && OpenAmong(g, nbs, p.1)
  }

  /** A union made with one of the later candidates is made with one of
      them all. */
  lemma JoinsOpenGrows(g: Grid, row: int, col: int, nbs: seq<(int, int)>, u: seq<Pair>)
    requires |nbs| >= 1
    requires forall k :: 0 <= k < |u| ==> JoinsOpen(g, row, col, nbs[1..], u[k])
    ensures forall k :: 0 <= k < |u| ==> JoinsOpen(g, row, col, nbs, u[k])
  {
    forall k | 0 <= k < |u|
      ensures JoinsOpen(g, row, col, nbs, u[k])
    {
      var x :| x in nbs[1..] && OpenSite(g, x.0, x.1) && u[k].1 == XyTo1D(g.n, x.0, x.1);
      assert x in nbs;
    }
  }

  /** The source's `open`: out-of-grid coordinates throw; an open site is
      left alone; otherwise the site is opened and joined to its open
      neighbours. */
  function Open(g: Grid, row: int, col: int): (o: Outcome<Grid>)
    requires Valid(g)
    ensures Valid(o.state) && o.state.n == g.n
    ensures o.Completed() <==> InGrid(g.n, row, col)
    ensures !o.Completed() ==> o == Outcome(g, Some(IndexOutOfBounds))
    ensures o.Completed() ==> forall r, c :: InGrid(g.n, r, c) ==>
      o.state.openFlags[r][c] == (g.openFlags[r][c] || (r == row && c == col))
    ensures g.unions <= o.state.unions
    ensures InGrid(g.n, row, col) && g.openFlags[row][col] ==> o == Outcome(g, None)
    ensures forall k :: |g.unions| <= k < |o.state.unions| ==>
      JoinsOpen(g, row, col, Neighbours(row, col), o.state.unions[k])
  {
    if IndexCheck(g.n, row, col).Some? then Outcome(g, Some(IndexOutOfBounds))
    else if g.openFlags[row][col] then Outcome(g, None)
    else Outcome(OpenBlocked(g, row, col), None)
  }

  /** `open` on a blocked site of the grid: set its flag, then join it to
      each neighbour that is in the grid and open. */
  function OpenBlocked(g: Grid, row: int, col: int): (s: Grid)
    requires Valid(g) && InGrid(g.n, row, col) && !g.openFlags[row][col]
    ensures Valid(s) && s.n == g.n && g.unions <= s.unions
    ensures forall r, c :: InGrid(g.n, r, c) ==>
      s.openFlags[r][c] == (g.openFlags[r][c] || (r == row && c == col))
    ensures forall k :: |g.unions| <= k < |s.unions| ==>
      JoinsOpen(g, row, col, Neighbours(row, col), s.unions[k])
  {
    var g' := MarkOpen(g, row, col);
    var links := Links(g', row, col, Neighbours(row, col));
    OpenedLinks(g, g', row, col, links);
    AppendedLinks(g, row, col, links);
    LinkedValid(g', links);
    g'.(unions := g.unions + links)
  }

  /** Recording unions between sites of the union-find keeps a grid valid. */
  lemma LinkedValid(g: Grid, links: seq<Pair>)
    requires Valid(g) && InRange(Sites(g.n), links)
    ensures Valid(g.(unions := g.unions + links))
  {
    var u := g.unions + links;
    forall k | 0 <= k < |u|
      ensures 0 <= u[k].0 < Sites(g.n) && 0 <= u[k].1 < Sites(g.n)
    {
      if k >= |g.unions| {
        assert u[k] == links[k - |g.unions|];
      }
    }
  }

  /** The grid with the flag of site `(row, col)` set and nothing else changed. */
  function MarkOpen(g: Grid, row: int, col: int): (s: Grid)
    requires Valid(g) && InGrid(g.n, row, col)
    ensures Valid(s) && s.n == g.n && s.unions == g.unions
    ensures forall r, c :: InGrid(g.n, r, c) ==>
      s.openFlags[r][c] == (g.openFlags[r][c] || (r == row && c == col))
  {
    g.(openFlags := g.openFlags[row := g.openFlags[row][col := true]])
  }

  /** The unions after the recorded ones are the links just made. */
  lemma AppendedLinks(g: Grid, row: int, col: int, links: seq<Pair>)
    requires forall k :: 0 <= k < |links| ==> JoinsOpen(g, row, col, Neighbours(row, col), links[k])
    ensures forall k :: |g.unions| <= k < |g.unions + links| ==>
      JoinsOpen(g, row, col, Neighbours(row, col), (g.unions + links)[k])
  {
    forall k | |g.unions| <= k < |g.unions + links|
      ensures JoinsOpen(g, row, col, Neighbours(row, col), (g.unions + links)[k])
    {
      assert (g.unions + links)[k] == links[k - |g.unions|];
    }
  }

  /** The unions `open` adds join the site only to neighbours that were
      already open: a neighbour is never the site itself, so its flag is
      the same before and after the site is opened. */
  lemma OpenedLinks(g: Grid, g': Grid, row: int, col: int, links: seq<Pair>)
    requires Valid(g) && Valid(g') && g'.n == g.n
    requires forall r, c :: InGrid(g.n, r, c) && (r, c) != (row, col) ==> g'.openFlags[r][c] == g.openFlags[r][c]
    requires forall k :: 0 <= k < |links| ==> JoinsOpen(g', row, col, Neighbours(row, col), links[k])
    ensures forall k :: 0 <= k < |links| ==> JoinsOpen(g, row, col, Neighbours(row, col), links[k])
  {
    forall k | 0 <= k < |links|
      ensures JoinsOpen(g, row, col, Neighbours(row, col), links[k])
    {
      OpenedNeighbour(g, g', row, col, links[k].1);
    }
  }

  /** One such neighbour. */
  lemma OpenedNeighbour(g: Grid, g': Grid, row: int, col: int, site: int)
    requires Valid(g) && Valid(g') && g'.n == g.n
    requires forall r, c :: InGrid(g.n, r, c) && (r, c) != (row, col) ==> g'.openFlags[r][c] == g.openFlags[r][c]
    requires OpenAmong(g', Neighbours(row, col), site)
    ensures OpenAmong(g, Neighbours(row, col), site)
  {
    var x :| x in Neighbours(row, col) && OpenSite(g', x.0, x.1) && site == XyTo1D(g'.n, x.0, x.1);
    assert x != (row, col);
    assert OpenSite(g, x.0, x.1);
  }

  /** Opening a site that is already open changes nothing and throws
      nothing. */
  lemma OpenOpenSite(g: Grid, row: int, col: int)
    requires Valid(g) && InGrid(g.n, row, col) && g.openFlags[row][col]
    ensures Open(g, row, col) == Outcome(g, None)
  {
  }

  /** Opening a site twice is opening it once. */
  lemma OpenIdempotent(g: Grid, row: int, col: int)
    requires Valid(g)
    ensures Open(Open(g, row, col).state, row, col) == Open(g, row, col)
  {
  }

  /** Opening a blocked site opens it and joins it to each neighbour that
      was already open. */
  lemma OpenJoinsNeighbours(g: Grid, row: int, col: int, nb: (int, int))
    requires Valid(g) && InGrid(g.n, row, col) && !g.openFlags[row][col]
    requires nb in Neighbours(row, col) && InGrid(g.n, nb.0, nb.1) && g.openFlags[nb.0][nb.1]
    ensures IsOpen(Open(g, row, col).state, row, col) == Ok(true)
    ensures Connected(Sites(g.n), Open(g, row, col).state.unions, XyTo1D(g.n, row, col), XyTo1D(g.n, nb.0, nb.1))
  {
    var s := OpenBlocked(g, row, col);
    assert Open(g, row, col).state == s;
    var g' := MarkOpen(g, row, col);
    var links := Links(g', row, col, Neighbours(row, col));
    assert s.unions == g.unions + links;
    assert OpenSite(g', nb.0, nb.1) by {
      assert nb != (row, col);
    }
    var pair := (XyTo1D(g.n, row, col), XyTo1D(g.n, nb.0, nb.1));
    assert pair in links;
    var k :| 0 <= k < |links| && links[k] == pair;
    assert s.unions[|g.unions| + k] == pair;
    k := |g.unions| + k;
    RecordedConnected(Sites(g.n), s.unions, k);
  }

  /** Sites `a` and `b` of the grid, when both open, are connected. */
  predicate JoinedIfOpen(g: Grid, a: (int, int), b: (int, int))
    requires Valid(g) && InGrid(g.n, a.0, a.1) && InGrid(g.n, b.0, b.1)
  {
    g.openFlags[a.0][a.1] && g.openFlags[b.0][b.1] ==>
      Connected(Sites(g.n), g.unions, XyTo1D(g.n, a.0, a.1), XyTo1D(g.n, b.0, b.1))
  }

  /** Site `(r, c)` and the site below it, when both open, are connected. */
  predicate JoinedBelow(g: Grid, r: int, c: int)
    requires Valid(g) && 1 <= r < g.n && 1 <= c <= g.n
  {
    JoinedIfOpen(g, (r, c), (r + 1, c))
  }

  /** Site `(r, c)` and the site right of it, when both open, are connected. */
  predicate JoinedRight(g: Grid, r: int, c: int)
    requires Valid(g) && 1 <= r <= g.n && 1 <= c < g.n
  {
    JoinedIfOpen(g, (r, c), (r, c + 1))
  }

  /** Adjacent open sites share a union-find component. */
  predicate NeighboursJoined(g: Grid)
    requires Valid(g)
  {
    (forall r, c :: 1 <= r < g.n && 1 <= c <= g.n ==> JoinedBelow(g, r, c))
    && (forall r, c :: 1 <= r <= g.n && 1 <= c < g.n ==> JoinedRight(g, r, c))
  }

  /** A new grid has no open sites, so the invariant holds. */
  lemma NewNeighboursJoined(n: int)
    requires n > 0
    ensures NeighboursJoined(New(n).value)
  {
  }

  /** Connectivity survives more recorded unions. */
  lemma ExtendedKeepsConnected(g: Grid, s: Grid, x: int, y: int)
    requires Valid(g) && Valid(s) && s.n == g.n && g.unions <= s.unions
    requires 0 <= x < Sites(g.n) && 0 <= y < Sites(g.n)
    requires Connected(Sites(g.n), g.unions, x, y)
    ensures Connected(Sites(g.n), s.unions, x, y)
  {
    assert g.unions + s.unions[|g.unions|..] == s.unions;
    ConnectedGrows(Sites(g.n), g.unions, s.unions[|g.unions|..], x, y);
  }

  /** A pair connected before `open` stays connected. */
  lemma OpenKeepsConnected(g: Grid, row: int, col: int, x: int, y: int)
    requires Valid(g) && 0 <= x < Sites(g.n) && 0 <= y < Sites(g.n)
    requires Connected(Sites(g.n), g.unions, x, y)
    ensures Connected(Sites(g.n), Open(g, row, col).state.unions, x, y)
  {
    ExtendedKeepsConnected(g, Open(g, row, col).state, x, y);
  }

  /** Site `nb` is one of the four candidates around `(row, col)`. */
  predicate Beside(row: int, col: int, nb: (int, int))
  {
    nb == (row - 1, col) || nb == (row + 1, col) || nb == (row, col - 1) || nb == (row, col + 1)
  }

  /** What `open` at an in-grid site does, as a relation between the grids
      before and after: one more flag set, unions only added, and a site
      that was blocked joined to each neighbour that was open. */
  ghost predicate OpenedFrom(g: Grid, s: Grid, row: int, col: int)
    requires Valid(g) && Valid(s) && s.n == g.n && InGrid(g.n, row, col)
  {
    (forall r, c :: InGrid(g.n, r, c) ==> s.openFlags[r][c] == (g.openFlags[r][c] || (r == row && c == col)))
    && g.unions <= s.unions
    && (!g.openFlags[row][col] ==>
          forall nb :: Beside(row, col, nb) && InGrid(g.n, nb.0, nb.1) && g.openFlags[nb.0][nb.1] ==>
            Connected(Sites(g.n), s.unions, XyTo1D(g.n, row, col), XyTo1D(g.n, nb.0, nb.1)))
  }

  /** `open` at an in-grid site is such a step. */
  lemma OpenIsOpenedFrom(g: Grid, row: int, col: int)
    requires Valid(g) && InGrid(g.n, row, col)
    ensures OpenedFrom(g, Open(g, row, col).state, row, col)
  {
    if !g.openFlags[row][col] {
      forall nb | Beside(row, col, nb) && InGrid(g.n, nb.0, nb.1) && g.openFlags[nb.0][nb.1]
        ensures Connected(Sites(g.n), Open(g, row, col).state.unions, XyTo1D(g.n, row, col), XyTo1D(g.n, nb.0, nb.1))
      {
        assert nb in Neighbours(row, col);
        OpenJoinsNeighbours(g, row, col, nb);
      }
    }
  }

  /** Two adjacent sites open after the step are connected. */
  lemma StepJoinsPair(g: Grid, s: Grid, row: int, col: int, a: (int, int), b: (int, int))
    requires Valid(g) && Valid(s) && s.n == g.n && InGrid(g.n, row, col) && OpenedFrom(g, s, row, col)
    requires InGrid(g.n, a.0, a.1) && InGrid(g.n, b.0, b.1) && JoinedIfOpen(g, a, b)
    requires b == (a.0 + 1, a.1) || b == (a.0, a.1 + 1)
    ensures JoinedIfOpen(s, a, b)
  {
    if s.openFlags[a.0][a.1] && s.openFlags[b.0][b.1] {
      if a == (row, col) && !g.openFlags[row][col] {
        assert Beside(row, col, b);
      } else if b == (row, col) && !g.openFlags[row][col] {
        assert Beside(row, col, a);
        var x, y := XyTo1D(g.n, a.0, a.1), XyTo1D(g.n, b.0, b.1);
        assert Connected(Sites(g.n), s.unions, y, x);
      } else {
        ExtendedKeepsConnected(g, s, XyTo1D(g.n, a.0, a.1), XyTo1D(g.n, b.0, b.1));
      }
    }
  }

  /** The step keeps vertically adjacent open sites connected. */
  lemma StepKeepsBelow(g: Grid, s: Grid, row: int, col: int)
    requires Valid(g) && Valid(s) && s.n == g.n && InGrid(g.n, row, col) && OpenedFrom(g, s, row, col)
    requires NeighboursJoined(g)
    ensures forall r, c :: 1 <= r < g.n && 1 <= c <= g.n ==> JoinedBelow(s, r, c)
  {
    forall r, c | 1 <= r < g.n && 1 <= c <= g.n
      ensures JoinedBelow(s, r, c)
    {
      assert JoinedBelow(g, r, c);
      StepJoinsPair(g, s, row, col, (r, c), (r + 1, c));
    }
  }

  /** The step keeps horizontally adjacent open sites connected. */
  lemma StepKeepsRight(g: Grid, s: Grid, row: int, col: int)
    requires Valid(g) && Valid(s) && s.n == g.n && InGrid(g.n, row, col) && OpenedFrom(g, s, row, col)
    requires NeighboursJoined(g)
    ensures forall r, c :: 1 <= r <= g.n && 1 <= c < g.n ==> JoinedRight(s, r, c)
  {
    forall r, c | 1 <= r <= g.n && 1 <= c < g.n
      ensures JoinedRight(s, r, c)
    {
      assert JoinedRight(g, r, c);
      StepJoinsPair(g, s, row, col, (r, c), (r, c + 1));
    }
  }

  /** `open` keeps adjacent open sites connected. */
  lemma OpenKeepsNeighboursJoined(g: Grid, row: int, col: int)
    requires Valid(g) && NeighboursJoined(g)
    ensures NeighboursJoined(Open(g, row, col).state)
  {
    if InGrid(g.n, row, col) {
      var s := Open(g, row, col).state;
      OpenIsOpenedFrom(g, row, col);
      StepKeepsBelow(g, s, row, col);
      StepKeepsRight(g, s, row, col);
    }
  }

  /** A full site stays full when another site is opened. */
  lemma FullStaysFull(g: Grid, row: int, col: int, r: int, c: int)
    requires Valid(g) && IsFull(g, r, c) == Ok(true)
    ensures IsFull(Open(g, row, col).state, r, c) == Ok(true)
  {
    OpenKeepsConnected(g, row, col, XyTo1D(g.n, r, c), 0);
  }

  /** Opening a site of the first row makes it full. */
  lemma OpenTopRowIsFull(g: Grid, col: int)
    requires Valid(g) && 1 <= col <= g.n
    ensures IsFull(Open(g, 1, col).state, 1, col) == Ok(true)
  {
    TopRowConnected(Open(g, 1, col).state, col);
  }

  // ---------------------------------------------------------------------
  // Counting open sites
  // ---------------------------------------------------------------------

  /** The number of `true` flags in a row. */
  function CountTrue(s: seq<bool>): nat
  {
    if |s| == 0 then 0 else CountTrue(s[..|s| - 1]) + (if s[|s| - 1] then 1 else 0)
  }

  /** The number of `true` flags in a two-dimensional array. */
  function CountRows(rows: seq<seq<bool>>): nat
  {
    if |rows| == 0 then 0 else CountRows(rows[..|rows| - 1]) + CountTrue(rows[|rows| - 1])
  }

  /** Setting one flag changes the count by the difference it makes. */
  lemma {:induction false} CountTrueUpdate(s: seq<bool>, i: int, b: bool)
    requires 0 <= i < |s|
    ensures CountTrue(s[i := b]) + (if s[i] then 1 else 0) == CountTrue(s) + (if b then 1 else 0)
  {
    var t := s[i := b];
    if i < |s| - 1 {
      assert t[..|t| - 1] == s[..|s| - 1][i := b];
      CountTrueUpdate(s[..|s| - 1], i, b);
    } else {
      assert t[..|t| - 1] == s[..|s| - 1];
    }
  }

  /** Replacing one row changes the count by the difference in that row. */
  lemma {:induction false} CountRowsUpdate(rows: seq<seq<bool>>, i: int, row: seq<bool>)
    requires 0 <= i < |rows|
    ensures CountRows(rows[i := row]) + CountTrue(rows[i]) == CountRows(rows) + CountTrue(row)
  {
    var t := rows[i := row];
    if i < |rows| - 1 {
      assert t[..|t| - 1] == rows[..|rows| - 1][i := row];
      CountRowsUpdate(rows[..|rows| - 1], i, row);
    } else {
      assert t[..|t| - 1] == rows[..|rows| - 1];
    }
  }

  /** An all-blocked array counts no open site. */
  lemma {:induction false} CountRowsNone(rows: seq<seq<bool>>)
    requires forall i, j :: 0 <= i < |rows| && 0 <= j < |rows[i]| ==> !rows[i][j]
    ensures CountRows(rows) == 0
  {
    if |rows| > 0 {
      CountRowsNone(rows[..|rows| - 1]);
      CountTrueNone(rows[|rows| - 1]);
    }
  }

  lemma {:induction false} CountTrueNone(s: seq<bool>)
    requires forall j :: 0 <= j < |s| ==> !s[j]
    ensures CountTrue(s) == 0
  {
    if |s| > 0 {
      CountTrueNone(s[..|s| - 1]);
    }
  }

  /** The source's `numberOfOpenSites`: both loops run over the whole
      `(n+1)`-by-`(n+1)` array. */
  method NumberOfOpenSites(g: Grid) returns (count: int)
    requires Valid(g)
    ensures count == CountRows(g.openFlags)
  {
    count := 0;
    var i := 0;
    while i < |g.openFlags|
      invariant 0 <= i <= |g.openFlags|
      invariant count == CountRows(g.openFlags[..i])
    {
      var j := 0;
      while j < |g.openFlags|
        invariant 0 <= j <= |g.openFlags|
        invariant count == CountRows(g.openFlags[..i]) + CountTrue(g.openFlags[i][..j])
      {
        assert g.openFlags[i][..j + 1][..j] == g.openFlags[i][..j];
        if g.openFlags[i][j] {
          count := count + 1;
        }
        j := j + 1;
      }
      assert g.openFlags[i][..j] == g.openFlags[i];
      assert g.openFlags[..i + 1][..i] == g.openFlags[..i];
      i := i + 1;
    }
    assert g.openFlags[..i] == g.openFlags;
  }

  /** A new grid has no open site. */
  lemma NewHasNoOpenSites(n: int)
    requires n > 0
    ensures CountRows(New(n).value.openFlags) == 0
  {
    CountRowsNone(New(n).value.openFlags);
  }

  /** `open` adds one open site when the site was blocked and none
      otherwise. */
  lemma OpenCount(g: Grid, row: int, col: int)
    requires Valid(g) && InGrid(g.n, row, col)
    ensures CountRows(Open(g, row, col).state.openFlags) == CountRows(g.openFlags) + if g.openFlags[row][col] then 0 else 1
  {
    if !g.openFlags[row][col] {
      CountTrueUpdate(g.openFlags[row], col, true);
      CountRowsUpdate(g.openFlags, row, g.openFlags[row][col := true]);
    }
  }
}
