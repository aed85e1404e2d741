/**
 The seam carver of Carving/SeamCarver.java: a grid of colours stored
 column-major (`cells[col][row]`, the source's `Color[col][row]`) together
 with a logical `width` and `height`.

 The backing grid is never reallocated: removing a vertical seam shifts
 pixels left inside each row and then shrinks `width`, so columns beyond the
 logical width keep stale pixels, exactly as in the source. Energies use an
 arbitrary square-root function `sqrt`; the border energy is the constant
 1000.0.
 */
module SeamCarver {
  import opened Results
  import opened SeamSearch

  /** A colour channel, as returned by `Color.getRed()` and friends. */
  type Channel = x: int | 0 <= x <= 255

  datatype Color = Color(red: Channel, green: Channel, blue: Channel)

  /** The carver's state: the backing grid and the logical dimensions.
      `width` and `height` are plain integers because nothing in the source
      stops them from going below zero. */
  datatype Carver = Carver(cells: seq<seq<Color>>, width: int, height: int)

  /** The logical dimensions fit inside the backing grid. (A backing grid
      with no columns, as `new Color[0][h]` gives, holds any height.) */
  predicate Valid(s: Carver)
  {
    s.width <= |s.cells| && forall c :: 0 <= c < |s.cells| ==> s.height <= |s.cells[c]|
  }

  /** `g` has `w` columns of `h` colours each. */
  predicate IsGrid(g: seq<seq<Color>>, w: int, h: int)
  {
    |g| == w && forall c :: 0 <= c < w ==> |g[c]| == h
  }

  /** A fresh carver over a `w` by `h` grid, as the constructor builds it
      from a picture. */
  function FromGrid(g: seq<seq<Color>>, w: int, h: int): (s: Carver)
    requires IsGrid(g, w, h) && w >= 1 && h >= 1
    ensures Valid(s) && s.width == w && s.height == h
  {
    Carver(g, w, h)
  }

  /** The logical picture: the first `height` pixels of the first `width`
      columns. */
  function Content(s: Carver): (g: seq<seq<Color>>)
    requires Valid(s) && s.width >= 0 && s.height >= 0
    ensures IsGrid(g, s.width, s.height)
    ensures forall c, r :: 0 <= c < s.width && 0 <= r < s.height ==> g[c][r] == s.cells[c][r]
  {
    seq(s.width, c requires 0 <= c < s.width => s.cells[c][..s.height])
  }

  /** The grid with rows and columns swapped: `Transpose(g)[r][c] == g[c][r]`. */
  function Transpose(g: seq<seq<Color>>, w: int, h: int): (t: seq<seq<Color>>)
    requires IsGrid(g, w, h) && w >= 0 && h >= 0
    ensures IsGrid(t, h, w)
    ensures forall r, c :: 0 <= r < h && 0 <= c < w ==> t[r][c] == g[c][r]
  {
    seq(h, r requires 0 <= r < h => seq(w, c requires 0 <= c < w => g[c][r]))
  }

  /** Transposing twice gives the grid back. */
  lemma TransposeTwice(g: seq<seq<Color>>, w: int, h: int)
    requires IsGrid(g, w, h) && w >= 0 && h >= 0
    ensures Transpose(Transpose(g, w, h), h, w) == g
  {
    var t := Transpose(Transpose(g, w, h), h, w);
    forall c | 0 <= c < w
      ensures t[c] == g[c]
    {
      assert |t[c]| == |g[c]|;
    }
  }

  /** The fresh carver the horizontal operations build from the transposed
      picture. */
  function Transposed(s: Carver): (t: Carver)
    requires Valid(s) && s.width >= 0 && s.height >= 0
    ensures Valid(t) && t.width == s.height && t.height == s.width
    ensures Content(t) == Transpose(Content(s), s.width, s.height)
  {
    var t := Carver(Transpose(Content(s), s.width, s.height), s.height, s.width);
    assert forall r :: 0 <= r < s.height ==> t.cells[r][..s.width] == t.cells[r];
    assert Content(t) == t.cells;
    t
  }

  // ---------------------------------------------------------------------
  // Energy.
  // ---------------------------------------------------------------------

  /** The source's `delta2`: the squared distance between two colours. */
  function Delta2(a: Color, b: Color): (d: nat)
  {
    (b.red - a.red) * (b.red - a.red)
    + (b.green - a.green) * (b.green - a.green)
    + (b.blue - a.blue) * (b.blue - a.blue)
  }

  /** `delta2` does not depend on the order of its colours and vanishes
      exactly on equal colours. */
  lemma Delta2Properties(a: Color, b: Color)
    ensures Delta2(a, b) == Delta2(b, a)
    ensures Delta2(a, b) == 0 <==> a == b
  {
    SquareSign(b.red - a.red);
    SquareSign(b.green - a.green);
    SquareSign(b.blue - a.blue);
  }

  /** A square is non-negative, and zero only for zero. */
  lemma SquareSign(x: int)
    ensures x * x >= 0 && (x * x == 0 <==> x == 0)
  {
    if x > 0 {
      assert x * x >= x;
    } else if x < 0 {
      assert x * x == (-x) * (-x);
      assert (-x) * (-x) >= -x;
    }
  }

  /** `(x, y)` is a pixel on the first or last column or row. */
  predicate OnBorder(s: Carver, x: int, y: int)
  {
    x == 0 || y == 0 || x >= s.width - 1 || y >= s.height - 1
  }

  /** `(x, y)` lies inside the logical picture. */
  predicate InPicture(s: Carver, x: int, y: int)
  {
    0 <= x < s.width && 0 <= y < s.height
  }

  /** The squared gradient the source feeds to `Math.sqrt` for an interior
      pixel: east-west plus north-south. */
  function Gradient2(s: Carver, x: int, y: int): nat
    requires Valid(s) && InPicture(s, x, y) && !OnBorder(s, x, y)
  {
    Delta2(s.cells[x + 1][y], s.cells[x - 1][y]) + Delta2(s.cells[x][y - 1], s.cells[x][y + 1])
  }

  /** The energy of a pixel known to be inside the picture. */
  function EnergyAt(s: Carver, x: int, y: int, sqrt: nat -> real): real
    requires Valid(s) && InPicture(s, x, y)
  {
    if OnBorder(s, x, y) then 1000.0 else sqrt(Gradient2(s, x, y))
  }

  /** The source's `energy(x, y)`. */
  function Energy(s: Carver, x: int, y: int, sqrt: nat -> real): (e: Result<real>)
    requires Valid(s)
    ensures e.Err? <==> !InPicture(s, x, y)
    ensures e.Err? ==> e.error == IllegalArgument
    ensures e.Ok? && OnBorder(s, x, y) ==> e.value == 1000.0
  {
    if x > s.width - 1 || y > s.height - 1 || x < 0 || y < 0 then Err(IllegalArgument)
    else Ok(EnergyAt(s, x, y, sqrt))
  }

  /** The energy of an interior pixel depends only on its four orthogonal
      neighbours: two carvers of the same size that agree on them give it
      the same energy. */
  lemma EnergyIsLocal(s: Carver, t: Carver, x: int, y: int, sqrt: nat -> real)
    requires Valid(s) && Valid(t) && s.width == t.width && s.height == t.height
    requires InPicture(s, x, y) && !OnBorder(s, x, y)
    requires s.cells[x + 1][y] == t.cells[x + 1][y] && s.cells[x - 1][y] == t.cells[x - 1][y]
    requires s.cells[x][y + 1] == t.cells[x][y + 1] && s.cells[x][y - 1] == t.cells[x][y - 1]
    ensures Energy(s, x, y, sqrt) == Energy(t, x, y, sqrt)
  {
  }

  /** Energy is never negative when the square root is not. */
  lemma EnergyNonNegative(s: Carver, x: int, y: int, sqrt: nat -> real)
    requires Valid(s) && InPicture(s, x, y)
    requires forall n: nat :: sqrt(n) >= 0.0
    ensures Energy(s, x, y, sqrt).value >= 0.0
  {
  }

  /** Transposing the picture transposes its energies: east-west and
      north-south trade places and `delta2` is symmetric. */
  lemma EnergyTransposed(s: Carver, x: int, y: int, sqrt: nat -> real)
    requires Valid(s) && s.width >= 0 && s.height >= 0 && InPicture(s, x, y)
    ensures EnergyAt(Transposed(s), y, x, sqrt) == EnergyAt(s, x, y, sqrt)
  {
    var t := Transposed(s);
    if !OnBorder(s, x, y) {
      assert t.cells[y + 1][x] == s.cells[x][y + 1];
      assert t.cells[y - 1][x] == s.cells[x][y - 1];
      assert t.cells[y][x - 1] == s.cells[x - 1][y];
      assert t.cells[y][x + 1] == s.cells[x + 1][y];
      Delta2Properties(s.cells[x][y + 1], s.cells[x][y - 1]);
      Delta2Properties(s.cells[x - 1][y], s.cells[x + 1][y]);
    }
  }

  /** The energy matrix `E[col][row]` the source builds in
      `findVerticalSeam`. */
  function EnergyField(s: Carver, sqrt: nat -> real): (e: seq<seq<real>>)
    requires Valid(s) && s.width >= 0 && s.height >= 0
    ensures IsField(e, s.width, s.height)
    ensures forall x, y :: 0 <= x < s.width && 0 <= y < s.height ==> e[x][y] == EnergyAt(s, x, y, sqrt)
  {
    seq(s.width, x requires 0 <= x < s.width =>
      seq(s.height, y requires 0 <= y < s.height => EnergyAt(s, x, y, sqrt)))
  }

  /** A real field with rows and columns swapped. */
  function TransposeField(e: seq<seq<real>>, w: int, h: int): (t: seq<seq<real>>)
    requires IsField(e, w, h) && w >= 0 && h >= 0
    ensures IsField(t, h, w)
    ensures forall r, c :: 0 <= r < h && 0 <= c < w ==> t[r][c] == e[c][r]
  {
    seq(h, r requires 0 <= r < h => seq(w, c requires 0 <= c < w => e[c][r]))
  }

  /** The energy field of the transposed carver is the transposed energy
      field. */
  lemma EnergyFieldTransposed(s: Carver, sqrt: nat -> real)
    requires Valid(s) && s.width >= 0 && s.height >= 0
    ensures EnergyField(Transposed(s), sqrt) == TransposeField(EnergyField(s, sqrt), s.width, s.height)
  {
    var a := EnergyField(Transposed(s), sqrt);
    var b := TransposeField(EnergyField(s, sqrt), s.width, s.height);
    forall y, x | 0 <= y < s.height && 0 <= x < s.width
      ensures a[y][x] == b[y][x]
    {
      EnergyTransposed(s, x, y, sqrt);
    }
    forall y | 0 <= y < s.height
      ensures a[y] == b[y]
    {
    }
  }

  // ---------------------------------------------------------------------
  // Finding seams.
  // ---------------------------------------------------------------------

  /** What `findVerticalSeam` returns or throws. Array allocation with a
      negative size throws; an empty picture yields the empty seam; a
      picture with no columns fails reading `edgeTo[-1]`, one with no rows
      fails writing `distTo[c][0]`. Otherwise the seam is the cheapest
      connected path through the energy field. */
  function VerticalSeam(s: Carver, sqrt: nat -> real): (r: Result<seq<int>>)
    requires Valid(s)
    ensures r.Ok? ==> |r.value| == s.height && IsPath(r.value, s.width)
    ensures r.Ok? <==> s.width >= 0 && s.height >= 0 && (s.width == 0 <==> s.height == 0)
  {
    if s.width < 0 || s.height < 0 then Err(NegativeArraySize)
    else if s.width == 0 && s.height == 0 then Ok([])
    else if s.width == 0 || s.height == 0 then Err(IndexOutOfBounds)
    else Ok(MinSeam(EnergyField(s, sqrt), s.width, s.height))
  }

  /** The vertical seam is a cheapest one: no connected path of `height`
      columns collects less energy. */
  lemma VerticalSeamIsOptimal(s: Carver, sqrt: nat -> real, q: seq<int>)
    requires Valid(s) && s.width >= 1 && s.height >= 1
    requires |q| == s.height && IsPath(q, s.width)
    ensures VerticalSeam(s, sqrt).Ok?
    ensures Cost(EnergyField(s, sqrt), s.width, s.height, VerticalSeam(s, sqrt).value)
         <= Cost(EnergyField(s, sqrt), s.width, s.height, q)
  {
    MinSeamIsOptimal(EnergyField(s, sqrt), s.width, s.height, q);
  }

  /** Ties go to the lowest final column: a path ending further left costs
      strictly more. */
  lemma VerticalSeamEndTieBreak(s: Carver, sqrt: nat -> real, q: seq<int>)
    requires Valid(s) && s.width >= 1 && s.height >= 1
    requires |q| == s.height && IsPath(q, s.width)
    requires q[s.height - 1] < VerticalSeam(s, sqrt).value[s.height - 1]
    ensures Cost(EnergyField(s, sqrt), s.width, s.height, VerticalSeam(s, sqrt).value)
          < Cost(EnergyField(s, sqrt), s.width, s.height, q)
  {
    var f := EnergyField(s, sqrt);
    var seam := VerticalSeamIsMinSeam(s, sqrt, f);
    MinSeamEndTieBreak(f, s.width, s.height, q);
  }

  /** For a non-empty picture the seam is the cheapest path of its energy
      field. */
  lemma VerticalSeamIsMinSeam(s: Carver, sqrt: nat -> real, f: seq<seq<real>>) returns (seam: seq<int>)
    requires Valid(s) && s.width >= 1 && s.height >= 1 && f == EnergyField(s, sqrt)
    ensures seam == MinSeam(f, s.width, s.height) && VerticalSeam(s, sqrt) == Ok(seam)
  {
    seam := MinSeam(f, s.width, s.height);
  }

  /** In a one-column picture the seam is all zeros. */
  lemma VerticalSeamOneColumn(s: Carver, sqrt: nat -> real)
    requires Valid(s) && s.width == 1 && s.height >= 1
    ensures VerticalSeam(s, sqrt) == Ok(seq(s.height, _ => 0))
  {
    var p := VerticalSeam(s, sqrt).value;
    assert InColumns(p, 1);
    assert forall i :: 0 <= i < s.height ==> p[i] == 0;
    assert p == seq(s.height, _ => 0);
  }

  /** In a one-row picture the seam is `[0]`: row 0 costs nothing. */
  lemma VerticalSeamOneRow(s: Carver, sqrt: nat -> real)
    requires Valid(s) && s.width >= 1 && s.height == 1
    ensures VerticalSeam(s, sqrt) == Ok([0])
  {
    MinSeamOneRow(EnergyField(s, sqrt), s.width);
  }

  /** The source's `findVerticalSeam`: fill the energy matrix column by
      column, then run the shortest-path scan. */
  method FindVerticalSeam(s: Carver, sqrt: nat -> real) returns (r: Result<seq<int>>)
    requires Valid(s)
    ensures r == VerticalSeam(s, sqrt)
  {
    if s.width < 0 || s.height < 0 {
      return Err(NegativeArraySize);
    }
    var e: seq<seq<real>> := [];
    var col := 0;
    while col < s.width
      invariant 0 <= col <= s.width
      invariant |e| == col
      invariant forall x :: 0 <= x < col ==> |e[x]| == s.height
      invariant forall x, y :: 0 <= x < col && 0 <= y < s.height ==> e[x][y] == EnergyAt(s, x, y, sqrt)
    {
      var column: seq<real> := [];
      var row := 0;
      while row < s.height
        invariant 0 <= row <= s.height
        invariant |column| == row
        invariant forall y :: 0 <= y < row ==> column[y] == EnergyAt(s, col, y, sqrt)
      {
        column := column + [Energy(s, col, row, sqrt).value];
        row := row + 1;
      }
      e := e + [column];
      col := col + 1;
    }
    forall x | 0 <= x < s.width
      ensures e[x] == EnergyField(s, sqrt)[x]
    {
    }
    assert e == EnergyField(s, sqrt);
    if s.width == 0 && s.height == 0 {
      r := Ok([]);
    } else if s.width == 0 || s.height == 0 {
      r := Err(IndexOutOfBounds);
    } else {
      var path := ShortestPath(e, s.width, s.height);
      r := Ok(path);
    }
  }

  /** What `findHorizontalSeam` returns or throws: the vertical seam of a
      fresh carver over the transposed picture. Building that picture with
      a negative size is refused by the picture library. */
  function HorizontalSeam(s: Carver, sqrt: nat -> real): (r: Result<seq<int>>)
    requires Valid(s)
    ensures r.Ok? ==> |r.value| == s.width && IsPath(r.value, s.height)
  {
    if s.width < 0 || s.height < 0 then Err(IllegalArgument)
    else VerticalSeam(Transposed(s), sqrt)
  }

  /** The horizontal seam is the cheapest seam of the transposed energy
      field: a connected path of `width` rows, one per column, collecting
      the least energy. */
  lemma HorizontalSeamIsTransposedMinSeam(s: Carver, sqrt: nat -> real)
    requires Valid(s) && s.width >= 1 && s.height >= 1
    ensures HorizontalSeam(s, sqrt)
         == Ok(MinSeam(TransposeField(EnergyField(s, sqrt), s.width, s.height), s.height, s.width))
  {
    EnergyFieldTransposed(s, sqrt);
  }

  /** Hence no horizontal path collects less energy than the horizontal
      seam. */
  lemma HorizontalSeamIsOptimal(s: Carver, sqrt: nat -> real, q: seq<int>)
    requires Valid(s) && s.width >= 1 && s.height >= 1
    requires |q| == s.width && IsPath(q, s.height)
    ensures HorizontalSeam(s, sqrt).Ok?
    ensures var t := TransposeField(EnergyField(s, sqrt), s.width, s.height);
      Cost(t, s.height, s.width, HorizontalSeam(s, sqrt).value) <= Cost(t, s.height, s.width, q)
  {
    var t := TransposeField(EnergyField(s, sqrt), s.width, s.height);
    HorizontalSeamIsTransposedMinSeam(s, sqrt);
    MinSeamIsOptimal(t, s.height, s.width, q);
  }

  // ---------------------------------------------------------------------
  // Removing seams.
  // ---------------------------------------------------------------------

  function Abs(x: int): nat
  {
    if x < 0 then -x else x
  }

  /** The check the source makes on row `r` of a vertical seam before
      shifting it, or `None` if the row passes: entries above the last
      column are refused, a row from `first` on is refused when it is more
      than one column from the row above, and a negative entry fails on the
      first array access of the shift loop. The source checks adjacency
      from row 2 on (`first == 2`); see `RemoveVerticalSeamFixed`. */
  function RowCheck(seam: seq<int>, width: int, first: int, r: int): Option<Exception>
    requires first >= 1 && 0 <= r < |seam|
  {
    var c := seam[r];
    if c > width - 1 then Some(IllegalArgument)
    else if r >= first && Abs(seam[r - 1] - seam[r]) > 1 then Some(IllegalArgument)
    else if c < 0 && c < width - 1 then Some(IndexOutOfBounds)
    else None
  }

  /** The source's inner loop for row `r`: pixels right of column `c` move one
      column left, up to the last logical column. */
  function ShiftRow(cells: seq<seq<Color>>, r: int, c: int, width: int): (res: seq<seq<Color>>)
    requires 0 <= r && width <= |cells| && (forall col :: 0 <= col < |cells| ==> r < |cells[col]|)
    requires c >= 0 || c >= width - 1
    ensures |res| == |cells|
    ensures forall col :: 0 <= col < |cells| ==>
      res[col] == if c <= col < width - 1 then cells[col][r := cells[col + 1][r]] else cells[col]
  {
    seq(|cells|, col requires 0 <= col < |cells| =>
      if c <= col < width - 1 then cells[col][r := cells[col + 1][r]] else cells[col])
  }

  /** The source's row loop from row `r` on: check, shift, next row; the
      first failing check stops it with the rows before already shifted. */
  function RemoveRows(cells: seq<seq<Color>>, width: int, first: int, seam: seq<int>, r: int): (o: Outcome<seq<seq<Color>>>)
    requires first >= 1 && 0 <= r <= |seam| && width <= |cells|
    requires forall col :: 0 <= col < |cells| ==> |seam| <= |cells[col]|
    ensures |o.state| == |cells| && forall col :: 0 <= col < |cells| ==> |o.state[col]| == |cells[col]|
    decreases |seam| - r
  {
    if r == |seam| then Outcome(cells, None)
    else
      var check := RowCheck(seam, width, first, r);
      if check.Some? then Outcome(cells, check)
      else RemoveRows(ShiftRow(cells, r, seam[r], width), width, first, seam, r + 1)
  }

  /** Vertical removal with adjacency checked from row `first` on. A null
      seam or one of the wrong length is refused before anything changes; a
      failing row check leaves the earlier rows shifted and `width`
      unchanged; success shrinks `width` by one. */
  function RemoveVerticalSeamFrom(s: Carver, seam: Option<seq<int>>, first: int): (o: Outcome<Carver>)
    requires Valid(s) && first >= 1
    ensures Valid(o.state) && o.state.height == s.height
    ensures o.state.width == if o.Completed() then s.width - 1 else s.width
    ensures seam.None? || |seam.value| != s.height ==> o == Outcome(s, Some(IllegalArgument))
  {
    if seam.None? || |seam.value| != s.height then Outcome(s, Some(IllegalArgument))
    else
      var rows := RemoveRows(s.cells, s.width, first, seam.value, 0);
      var width := if rows.Completed() then s.width - 1 else s.width;
      Outcome(Carver(rows.state, width, s.height), rows.thrown)
  }

  /** The source's `removeVerticalSeam`, which checks adjacency from row 2
      on (`r > 1`). */
  function RemoveVerticalSeam(s: Carver, seam: Option<seq<int>>): (o: Outcome<Carver>)
    requires Valid(s)
  {
    RemoveVerticalSeamFrom(s, seam, 2)
  }

  /** `removeVerticalSeam` as evidently intended: every row after the first
      is checked against the row above. */
  function RemoveVerticalSeamFixed(s: Carver, seam: Option<seq<int>>): (o: Outcome<Carver>)
    requires Valid(s)
  {
    RemoveVerticalSeamFrom(s, seam, 1)
  }

  /** The first row whose check fails, or `|seam|` if none does. */
  function FirstFailure(seam: seq<int>, width: int, first: int, r: int): (k: int)
    requires first >= 1 && 0 <= r <= |seam|
    ensures r <= k <= |seam|
    ensures forall i :: r <= i < k ==> RowCheck(seam, width, first, i).None?
    ensures k < |seam| ==> RowCheck(seam, width, first, k).Some?
    decreases |seam| - r
  {
    if r == |seam| || RowCheck(seam, width, first, r).Some? then r
    else FirstFailure(seam, width, first, r + 1)
  }

  /** The grid after rows `[r, k)` have been shifted and the rest left alone. */
  predicate ShiftedRows(before: seq<seq<Color>>, after: seq<seq<Color>>, width: int, seam: seq<int>, r: int, k: int)
    requires 0 <= r <= k <= |seam| && width <= |before|
    requires forall col :: 0 <= col < |before| ==> |seam| <= |before[col]|
  {
    |after| == |before|
    && (forall col :: 0 <= col < |before| ==> |after[col]| == |before[col]|)
    && forall col, row :: 0 <= col < |before| && 0 <= row < |before[col]| ==>
      ShiftedCell(before, after, width, seam, r, k, col, row)
  }

  /** The pixel at `(col, row)` came from the column to its right if row
      `row` is among the shifted rows and `col` is right of the seam, and
      stayed put otherwise. */
  predicate ShiftedCell(before: seq<seq<Color>>, after: seq<seq<Color>>, width: int, seam: seq<int>, r: int, k: int, col: int, row: int)
    requires 0 <= r <= k <= |seam| && width <= |before|
    requires forall x :: 0 <= x < |before| ==> |seam| <= |before[x]|
    requires |after| == |before| && 0 <= col < |before| && 0 <= row < |before[col]| && row < |after[col]|
  {
    after[col][row] == if r <= row < k && seam[row] <= col < width - 1 then before[col + 1][row] else before[col][row]
  }

  /** The row loop ends with the exception of the first failing check, if
      any. */
  lemma {:induction false} RemoveRowsThrown(cells: seq<seq<Color>>, width: int, first: int, seam: seq<int>, r: int)
    requires first >= 1 && 0 <= r <= |seam| && width <= |cells|
    requires forall col :: 0 <= col < |cells| ==> |seam| <= |cells[col]|
    ensures var k := FirstFailure(seam, width, first, r);
      RemoveRows(cells, width, first, seam, r).thrown == if k < |seam| then RowCheck(seam, width, first, k) else None
    decreases |seam| - r
  {
    if r < |seam| && RowCheck(seam, width, first, r).None? {
      RemoveRowsThrown(ShiftRow(cells, r, seam[r], width), width, first, seam, r + 1);
    }
  }

  /** The row loop shifts exactly the rows before the first failing check:
      the pixel at `(col, row)` afterwards. */
  lemma {:induction false} RemoveRowsAt(cells: seq<seq<Color>>, width: int, first: int, seam: seq<int>, r: int, col: int, row: int)
    requires first >= 1 && 0 <= r <= |seam| && width <= |cells|
    requires forall x :: 0 <= x < |cells| ==> |seam| <= |cells[x]|
    requires 0 <= col < |cells| && 0 <= row < |cells[col]|
    ensures var k := FirstFailure(seam, width, first, r);
      RemoveRows(cells, width, first, seam, r).state[col][row]
      == if r <= row < k && seam[row] <= col < width - 1 then cells[col + 1][row] else cells[col][row]
    decreases |seam| - r
  {
    if r < |seam| && RowCheck(seam, width, first, r).None? {
      var next := ShiftRow(cells, r, seam[r], width);
      RemoveRowsStep(cells, width, first, seam, r);
      RemoveRowsAt(next, width, first, seam, r + 1, col, row);
      ShiftThenRest(cells, width, seam, r, FirstFailure(seam, width, first, r + 1), col, row,
        RemoveRows(next, width, first, seam, r + 1).state[col][row]);
    } else {
      assert FirstFailure(seam, width, first, r) == r;
      assert RemoveRows(cells, width, first, seam, r).state == cells;
    }
  }

  /** A row that passes its check is shifted and the loop goes on. */
  lemma RemoveRowsStep(cells: seq<seq<Color>>, width: int, first: int, seam: seq<int>, r: int)
    requires first >= 1 && 0 <= r < |seam| && width <= |cells|
    requires forall x :: 0 <= x < |cells| ==> |seam| <= |cells[x]|
    requires RowCheck(seam, width, first, r).None?
    ensures FirstFailure(seam, width, first, r) == FirstFailure(seam, width, first, r + 1)
    ensures RemoveRows(cells, width, first, seam, r)
      == RemoveRows(ShiftRow(cells, r, seam[r], width), width, first, seam, r + 1)
  {
  }

  /** Shifting row `r` and then rows `[r + 1, k)` shifts rows `[r, k)`:
      `v` is a pixel of the grid after the later rows were shifted. */
  lemma ShiftThenRest(cells: seq<seq<Color>>, width: int, seam: seq<int>, r: int, k: int, col: int, row: int, v: Color)
    requires 0 <= r < k <= |seam| && width <= |cells|
    requires forall x :: 0 <= x < |cells| ==> |seam| <= |cells[x]|
    requires seam[r] >= 0 || seam[r] >= width - 1
    requires 0 <= col < |cells| && 0 <= row < |cells[col]|
    requires var next := ShiftRow(cells, r, seam[r], width);
      v == if r + 1 <= row < k && seam[row] <= col < width - 1 then next[col + 1][row] else next[col][row]
    ensures v == if r <= row < k && seam[row] <= col < width - 1 then cells[col + 1][row] else cells[col][row]
  {
    ShiftRowAt(cells, r, seam[r], width, col, row);
    if row != r && r + 1 <= row < k && seam[row] <= col < width - 1 {
      ShiftRowAt(cells, r, seam[r], width, col + 1, row);
    }
  }

  /** The pixel at `(col, row)` after shifting row `r` from column `c`. */
  lemma ShiftRowAt(cells: seq<seq<Color>>, r: int, c: int, width: int, col: int, row: int)
    requires 0 <= r && width <= |cells| && (forall x :: 0 <= x < |cells| ==> r < |cells[x]|)
    requires c >= 0 || c >= width - 1
    requires 0 <= col < |cells| && 0 <= row < |cells[col]|
    ensures ShiftRow(cells, r, c, width)[col][row]
      == if row == r && c <= col < width - 1 then cells[col + 1][r] else cells[col][row]
  {
  }

  /** The whole row loop, pixel by pixel. */
  lemma RemoveRowsEveryCell(cells: seq<seq<Color>>, width: int, first: int, seam: seq<int>, k: int)
    requires first >= 1 && width <= |cells|
    requires forall col :: 0 <= col < |cells| ==> |seam| <= |cells[col]|
    requires k == FirstFailure(seam, width, first, 0)
    ensures forall col, row | 0 <= col < |cells| && 0 <= row < |cells[col]| ::
      ShiftedCell(cells, RemoveRows(cells, width, first, seam, 0).state, width, seam, 0, k, col, row)
  {
    forall col, row | 0 <= col < |cells| && 0 <= row < |cells[col]|
      ensures ShiftedCell(cells, RemoveRows(cells, width, first, seam, 0).state, width, seam, 0, k, col, row)
    {
      RemoveRowsAt(cells, width, first, seam, 0, col, row);
    }
  }

  /** The whole row loop, described in one piece: it shifts exactly the
      rows before the first failing check. */
  lemma RemoveRowsEffect(cells: seq<seq<Color>>, width: int, first: int, seam: seq<int>)
    requires first >= 1 && width <= |cells|
    requires forall col :: 0 <= col < |cells| ==> |seam| <= |cells[col]|
    ensures ShiftedRows(cells, RemoveRows(cells, width, first, seam, 0).state, width, seam, 0, FirstFailure(seam, width, first, 0))
  {
    RemoveRowsEveryCell(cells, width, first, seam, FirstFailure(seam, width, first, 0));
  }

  /** A vertical removal succeeds exactly when the seam has `height` entries
      none of which is above the last column, none negative while a column
      remains to shift, and each from row `first` on within one column of
      the entry above it. */
  lemma RemoveVerticalSeamFromSucceedsIff(s: Carver, seam: seq<int>, first: int)
    requires Valid(s) && first >= 1
    ensures RemoveVerticalSeamFrom(s, Some(seam), first).Completed() <==>
      |seam| == s.height
      && (forall r :: 0 <= r < |seam| ==> seam[r] <= s.width - 1 && (seam[r] >= 0 || seam[r] >= s.width - 1))
      && (forall r :: first <= r < |seam| ==> Abs(seam[r - 1] - seam[r]) <= 1)
  {
    if |seam| == s.height {
      RemoveRowsThrown(s.cells, s.width, first, seam, 0);
      var k := FirstFailure(seam, s.width, first, 0);
      if k == |seam| {
        forall r | 0 <= r < |seam|
          ensures seam[r] <= s.width - 1 && (seam[r] >= 0 || seam[r] >= s.width - 1)
          ensures r >= first ==> Abs(seam[r - 1] - seam[r]) <= 1
        {
          assert RowCheck(seam, s.width, first, r).None?;
        }
      } else {
        assert RowCheck(seam, s.width, first, k).Some?;
        assert !(seam[k] <= s.width - 1 && (seam[k] >= 0 || seam[k] >= s.width - 1))
          || (k >= first && Abs(seam[k - 1] - seam[k]) > 1);
      }
    }
  }

  /** The source's removal succeeds exactly when the seam has `height`
      entries none of which is above the last column, none negative while a
      column remains to shift, and each from row 2 on within one column of
      the entry above it. Rows 0 and 1 may be any distance apart. */
  lemma RemoveVerticalSeamSucceedsIff(s: Carver, seam: seq<int>)
    requires Valid(s)
    ensures RemoveVerticalSeam(s, Some(seam)).Completed() <==>
      |seam| == s.height
      && (forall r :: 0 <= r < |seam| ==> seam[r] <= s.width - 1 && (seam[r] >= 0 || seam[r] >= s.width - 1))
      && (forall r :: 2 <= r < |seam| ==> Abs(seam[r - 1] - seam[r]) <= 1)
  {
    RemoveVerticalSeamFromSucceedsIff(s, seam, 2);
  }

  /** The source accepts a seam whose first two entries are two columns
      apart: in a 3 x 2 picture, `[0, 2]` is removed, while the intended
      check refuses it. */
  lemma RowOneGapAccepted(s: Carver)
    requires Valid(s) && s.width == 3 && s.height == 2
    ensures RemoveVerticalSeam(s, Some([0, 2])).Completed()
    ensures !RemoveVerticalSeamFixed(s, Some([0, 2])).Completed()
  {
    RemoveVerticalSeamFromSucceedsIff(s, [0, 2], 2);
    RemoveVerticalSeamFromSucceedsIff(s, [0, 2], 1);
    assert Abs([0, 2][0] - [0, 2][1]) > 1;
  }

  /** With every row checked against the row above, a picture at least one
      column wide accepts exactly the connected paths of `height` columns:
      the seams the seam finder returns. */
  lemma RemoveVerticalSeamFixedAcceptsPaths(s: Carver, seam: seq<int>)
    requires Valid(s) && s.width >= 1
    ensures RemoveVerticalSeamFixed(s, Some(seam)).Completed() <==> |seam| == s.height && IsPath(seam, s.width)
  {
    RemoveVerticalSeamFromSucceedsIff(s, seam, 1);
    if |seam| == s.height && IsPath(seam, s.width) {
      forall r | 1 <= r < |seam|
        ensures Abs(seam[r - 1] - seam[r]) <= 1
      {
        assert -1 <= Step(seam, r) <= 1;
      }
    }
    if RemoveVerticalSeamFixed(s, Some(seam)).Completed() {
      forall r | 1 <= r < |seam|
        ensures -1 <= Step(seam, r) <= 1
      {
        assert Abs(seam[r - 1] - seam[r]) <= 1;
      }
    }
  }

  /** The seam the finder returns is accepted by the intended removal, and
      by the source's. */
  lemma FoundSeamIsRemovable(s: Carver, sqrt: nat -> real)
    requires Valid(s) && s.width >= 1 && s.height >= 1
    ensures VerticalSeam(s, sqrt).Ok?
    ensures RemoveVerticalSeamFixed(s, Some(VerticalSeam(s, sqrt).value)).Completed()
    ensures RemoveVerticalSeam(s, Some(VerticalSeam(s, sqrt).value)).Completed()
  {
    var seam := VerticalSeam(s, sqrt).value;
    RemoveVerticalSeamFixedAcceptsPaths(s, seam);
    RemoveVerticalSeamFromSucceedsIff(s, seam, 1);
    RemoveVerticalSeamFromSucceedsIff(s, seam, 2);
  }

  /** A successful vertical removal deletes pixel `seam[r]` from every row
      `r` of the picture: pixels left of it stay, pixels right of it move
      one column left, and the height is unchanged. */
  lemma RemoveVerticalSeamContent(s: Carver, seam: seq<int>, first: int)
    requires Valid(s) && first >= 1 && s.width >= 1 && s.height >= 0
    requires RemoveVerticalSeamFrom(s, Some(seam), first).Completed()
    ensures RemoveVerticalSeamFrom(s, Some(seam), first).state.width == s.width - 1
    ensures RemoveVerticalSeamFrom(s, Some(seam), first).state.height == s.height
    ensures forall col, r :: 0 <= col < s.width - 1 && 0 <= r < s.height ==>
      RemoveVerticalSeamFrom(s, Some(seam), first).state.cells[col][r]
      == if col < seam[r] then s.cells[col][r] else s.cells[col + 1][r]
  {
    var after := RemoveRows(s.cells, s.width, first, seam, 0).state;
    RemovalFromRows(s, seam, first);
    RemoveRowsThrown(s.cells, s.width, first, seam, 0);
    assert FirstFailure(seam, s.width, first, 0) == |seam|;
    RemoveRowsAll(s.cells, s.width, s.height, first, seam);
    var t := RemoveVerticalSeamFrom(s, Some(seam), first).state;
    assert t.cells == after;
    forall col, r | 0 <= col < s.width - 1 && 0 <= r < s.height
      ensures t.cells[col][r] == if col < seam[r] then s.cells[col][r] else s.cells[col + 1][r]
    {
      assert after[col][r] == if col < seam[r] then s.cells[col][r] else s.cells[col + 1][r];
    }
  }

  /** A row loop in which no check fails shifts every row. */
  lemma RemoveRowsAll(cells: seq<seq<Color>>, width: int, height: int, first: int, seam: seq<int>)
    requires first >= 1 && width <= |cells| && |seam| == height
    requires forall col :: 0 <= col < |cells| ==> |seam| <= |cells[col]|
    requires FirstFailure(seam, width, first, 0) == |seam|
    ensures var after := RemoveRows(cells, width, first, seam, 0).state;
      forall col, r {:trigger after[col][r]} :: 0 <= col < width - 1 && 0 <= r < height ==>
        after[col][r] == if col < seam[r] then cells[col][r] else cells[col + 1][r]
  {
    RemoveRowsEffect(cells, width, first, seam);
    ShiftedEveryRow(cells, RemoveRows(cells, width, first, seam, 0).state, width, height, seam);
  }

  /** A seam of the right length runs the row loop over the whole picture. */
  lemma RemovalFromRows(s: Carver, seam: seq<int>, first: int)
    requires Valid(s) && first >= 1 && |seam| == s.height
    ensures var rows := RemoveRows(s.cells, s.width, first, seam, 0);
      RemoveVerticalSeamFrom(s, Some(seam), first)
      == Outcome(Carver(rows.state, if rows.Completed() then s.width - 1 else s.width, s.height), rows.thrown)
  {
  }

  /** With every row shifted, each pixel left of the seam stays and each
      pixel at or right of it comes from the next column. */
  lemma ShiftedEveryRow(before: seq<seq<Color>>, after: seq<seq<Color>>, width: int, height: int, seam: seq<int>)
    requires width <= |before| && |seam| == height
    requires forall col :: 0 <= col < |before| ==> |seam| <= |before[col]|
    requires ShiftedRows(before, after, width, seam, 0, |seam|)
    ensures forall col, r {:trigger after[col][r]} :: 0 <= col < width - 1 && 0 <= r < height ==>
      after[col][r] == if col < seam[r] then before[col][r] else before[col + 1][r]
  {
    forall col, r {:trigger after[col][r]} | 0 <= col < width - 1 && 0 <= r < height
      ensures after[col][r] == if col < seam[r] then before[col][r] else before[col + 1][r]
    {
      assert ShiftedCell(before, after, width, seam, 0, |seam|, col, r);
    }
  }

  /** The entries of an accepted seam are columns of the picture. */
  lemma RemovedSeamInPicture(s: Carver, seam: seq<int>, first: int)
    requires Valid(s) && first >= 1 && s.width >= 1
    requires RemoveVerticalSeamFrom(s, Some(seam), first).Completed()
    ensures |seam| == s.height && forall r :: 0 <= r < |seam| ==> 0 <= seam[r] < s.width
  {
    RemoveVerticalSeamFromSucceedsIff(s, seam, first);
  }

  /** A vertical removal that fails on a row check leaves the rows before
      the failing row shifted, the others untouched, and `width` as it was. */
  lemma RemoveVerticalSeamPartial(s: Carver, seam: seq<int>, first: int)
    requires Valid(s) && first >= 1 && |seam| == s.height
    requires !RemoveVerticalSeamFrom(s, Some(seam), first).Completed()
    ensures var k := FirstFailure(seam, s.width, first, 0);
      var t := RemoveVerticalSeamFrom(s, Some(seam), first).state;
      k < |seam| && t.width == s.width
      && ShiftedRows(s.cells, t.cells, s.width, seam, 0, k)
  {
    RemoveRowsThrown(s.cells, s.width, first, seam, 0);
    RemoveRowsEffect(s.cells, s.width, first, seam);
  }

  /** Nothing stops the last column from being removed: in a one-column
      picture the all-zero seam is accepted and `width` drops to 0. */
  lemma RemoveLastColumn(s: Carver, first: int)
    requires Valid(s) && first >= 1 && s.width == 1 && s.height >= 0
    ensures RemoveVerticalSeamFrom(s, Some(seq(s.height, _ => 0)), first) ==
      Outcome(Carver(s.cells, 0, s.height), None)
  {
    var seam := seq(s.height, _ => 0);
    assert forall r :: 0 <= r < |seam| ==> seam[r] == 0;
    RemoveVerticalSeamFromSucceedsIff(s, seam, first);
    var after := RemoveRows(s.cells, s.width, first, seam, 0).state;
    forall col | 0 <= col < |s.cells|
      ensures after[col] == s.cells[col]
    {
      forall row | 0 <= row < |s.cells[col]|
        ensures after[col][row] == s.cells[col][row]
      {
        RemoveRowsAt(s.cells, s.width, first, seam, 0, col, row);
      }
    }
    assert after == s.cells;
  }

  /** Horizontal removal with the vertical check starting at row `first`:
      copy the transposed picture into a fresh carver, remove the seam from
      it vertically, then copy the first `height - 1` rows back. A failure
      in the fresh carver propagates before anything here changes. */
  function RemoveHorizontalSeamFrom(s: Carver, seam: Option<seq<int>>, first: int): (o: Outcome<Carver>)
    requires Valid(s) && first >= 1
    ensures Valid(o.state) && o.state.width == s.width
    ensures o.state.height == if o.Completed() then s.height - 1 else s.height
    ensures !o.Completed() ==> o.state == s
  {
    if s.width < 0 || s.height < 0 then Outcome(s, Some(IllegalArgument))
    else
      var t := RemoveVerticalSeamFrom(Transposed(s), seam, first);
      if !t.Completed() then Outcome(s, t.thrown)
      else
        var height := s.height - 1;
        var cells := seq(|s.cells|, c requires 0 <= c < |s.cells| =>
          if c < s.width then
            seq(|s.cells[c]|, r requires 0 <= r < |s.cells[c]| => if r < height then t.state.cells[r][c] else s.cells[c][r])
          else s.cells[c]);
        Outcome(Carver(cells, s.width, height), None)
  }

  /** The source's `removeHorizontalSeam`, built on its `removeVerticalSeam`. */
  function RemoveHorizontalSeam(s: Carver, seam: Option<seq<int>>): (o: Outcome<Carver>)
    requires Valid(s)
  {
    RemoveHorizontalSeamFrom(s, seam, 2)
  }

  /** `removeHorizontalSeam` on the intended vertical removal. */
  function RemoveHorizontalSeamFixed(s: Carver, seam: Option<seq<int>>): (o: Outcome<Carver>)
    requires Valid(s)
  {
    RemoveHorizontalSeamFrom(s, seam, 1)
  }

  /** A horizontal removal is a vertical removal of the transposed picture,
      transposed back: it succeeds exactly when that succeeds, and then the
      new picture is the transpose of the carved transposed picture. */
  lemma RemoveHorizontalSeamIsTransposed(s: Carver, seam: Option<seq<int>>, first: int)
    requires Valid(s) && first >= 1 && s.width >= 0 && s.height >= 1
    ensures var t := RemoveVerticalSeamFrom(Transposed(s), seam, first);
      var o := RemoveHorizontalSeamFrom(s, seam, first);
      o.Completed() == t.Completed()
      && o.thrown == t.thrown
      && (o.Completed() ==> Content(o.state) == Transpose(Content(t.state), t.state.width, t.state.height))
  {
    var t := RemoveVerticalSeamFrom(Transposed(s), seam, first);
    var o := RemoveHorizontalSeamFrom(s, seam, first);
    if o.Completed() {
      var a := Content(o.state);
      var b := Transpose(Content(t.state), t.state.width, t.state.height);
      forall c | 0 <= c < s.width
        ensures a[c] == b[c]
      {
        forall r | 0 <= r < s.height - 1
          ensures a[c][r] == b[c][r]
        {
          assert a[c][r] == o.state.cells[c][r] == t.state.cells[r][c];
        }
      }
    }
  }
}
