/**
 Shortest ancestral path over a digraph: for two sets of source vertices,
 a common ancestor (a vertex reachable from both) that minimises the sum
 of its distances from the two sets, and that sum.

 Breadth-first search is not modelled: its results enter as an oracle that
 maps a list of sources to per-vertex reachability and distance, the two
 queries the selection makes of it.
 */
module ShortestAncestralPath {
  import opened Results

  /** The digraph handed to the constructor. Only its vertex count is kept;
      its edges are seen only through the search oracle. */
  datatype Digraph = Digraph(vertices: nat)

  /** The object: the number of vertices `V` of its digraph. */
  datatype Sap = Sap(vertices: nat)

  /** The results of one breadth-first search, per vertex. */
  datatype Paths = Paths(hasPathTo: seq<bool>, distTo: seq<nat>)

  /** A search result covers exactly the vertices `0 .. v - 1`. */
  predicate Fits(p: Paths, v: int)
  {
    |p.hasPathTo| == v && |p.distTo| == v
  }

  /** The search oracle answers for every vertex of the digraph. */
  ghost predicate OracleFits(s: Sap, bfs: seq<int> -> Paths)
  {
    forall sources :: Fits(bfs(sources), s.vertices)
  }

  /** What breadth-first search promises about its sources: each is
      reachable at distance 0, and nothing else is at distance 0. */
  predicate SearchedFrom(p: Paths, sources: seq<int>)
  {
    (forall k :: k in sources && 0 <= k < |p.hasPathTo| && k < |p.distTo| ==> p.hasPathTo[k] && p.distTo[k] == 0)
    && (forall k :: 0 <= k < |p.hasPathTo| && k < |p.distTo| && p.hasPathTo[k] && p.distTo[k] == 0 ==> k in sources)
  }

  /** The source's constructor: a null digraph is refused. */
  function New(g: Option<Digraph>): (r: Result<Sap>)
    ensures r.Err? <==> g.None?
    ensures r.Err? ==> r.error == IllegalArgument
    ensures r.Ok? ==> r.value.vertices == g.value.vertices
  {
    match g
    case None => Err(IllegalArgument)
    case Some(d) => Ok(Sap(d.vertices))
  }

  // ---------------------------------------------------------------------
  // The selection
  // ---------------------------------------------------------------------

  /** Vertex `k` is reachable from both sides. */
  predicate Common(pv: Paths, pw: Paths, k: int)
    requires 0 <= k < |pv.hasPathTo| && 0 <= k < |pw.hasPathTo|
  {
    pv.hasPathTo[k] && pw.hasPathTo[k]
  }

  /** The length of the ancestral path through `k`. */
  function Through(pv: Paths, pw: Paths, k: int): nat
    requires 0 <= k < |pv.distTo| && 0 <= k < |pw.distTo|
  {
    pv.distTo[k] + pw.distTo[k]
  }

  /** `findSAP`'s loop after vertices `0 .. i - 1`: the ancestor chosen so
      far (`-1` for none) and the length that goes with it, which starts at
      `v`. A vertex replaces the current choice only with a strictly
      shorter path, so the lowest of equally short ancestors stays. */
  function Scan(v: int, pv: Paths, pw: Paths, i: int): (best: (int, int))
    requires Fits(pv, v) && Fits(pw, v) && 0 <= i <= v
    ensures best.0 == -1 ==> best.1 == v
    ensures best.0 != -1 ==> 0 <= best.0 < i && Common(pv, pw, best.0) && best.1 == Through(pv, pw, best.0) < v
    ensures forall k :: 0 <= k < i && Common(pv, pw, k) ==> Through(pv, pw, k) >= best.1
    ensures forall k :: 0 <= k < best.0 && Common(pv, pw, k) ==> Through(pv, pw, k) > best.1
    decreases i
  {
    if i == 0 then (-1, v)
    else
      var prev := Scan(v, pv, pw, i - 1);
      var k := i - 1;
      if !Common(pv, pw, k) then prev
      else if Through(pv, pw, k) < prev.1 then (k, Through(pv, pw, k))
      else prev
  }

  /** The source's `findSAP`: the scan over every vertex. */
  function FindSap(v: int, pv: Paths, pw: Paths): (best: (int, int))
    requires Fits(pv, v) && Fits(pw, v)
  {
    Scan(v, pv, pw, v)
  }

  /** `findSAP` finds an ancestor exactly when some common ancestor has a
      path shorter than `V`, and then the lowest of the shortest. */
  lemma FindSapIsLowestShortest(v: int, pv: Paths, pw: Paths)
    requires Fits(pv, v) && Fits(pw, v)
    ensures var best := FindSap(v, pv, pw);
      (best.0 == -1 <==> forall k :: 0 <= k < v && Common(pv, pw, k) ==> Through(pv, pw, k) >= v)
      && (best.0 != -1 ==>
            (Common(pv, pw, best.0) && best.1 == Through(pv, pw, best.0)
             && (forall k :: 0 <= k < v && Common(pv, pw, k) ==> Through(pv, pw, k) >= best.1)
             && (forall k :: 0 <= k < best.0 && Common(pv, pw, k) ==> Through(pv, pw, k) > best.1)))
  {
  }

  /** The selection does not depend on which side is which. */
  lemma {:induction false} ScanSymmetric(v: int, pv: Paths, pw: Paths, i: int)
    requires Fits(pv, v) && Fits(pw, v) && 0 <= i <= v
    ensures Scan(v, pv, pw, i) == Scan(v, pw, pv, i)
    decreases i
  {
    if i > 0 {
      ScanSymmetric(v, pv, pw, i - 1);
    }
  }

  // ---------------------------------------------------------------------
  // Validation
  // ---------------------------------------------------------------------

  /** The source's `validateVertex`. */
  function ValidateVertex(s: Sap, v: int): (e: Option<Exception>)
    ensures e.None? <==> 0 <= v < s.vertices
    ensures e.Some? ==> e.value == IllegalArgument
  {
    if v < 0 || v >= s.vertices then Some(IllegalArgument) else None
  }

  /** Every vertex of the list is present and in range. */
  predicate AllValid(s: Sap, vs: seq<Option<int>>)
  {
    forall i :: 0 <= i < |vs| ==> vs[i].Some? && 0 <= vs[i].value < s.vertices
  }

  /** The loop of `validateVertices` over the list: the first absent
      (`null`) entry fails when it is unboxed, the first out-of-range one
      is refused. */
  function CheckEach(s: Sap, vs: seq<Option<int>>): (e: Option<Exception>)
    ensures e.None? <==> AllValid(s, vs)
    ensures e.Some? ==> (exists i :: 0 <= i < |vs| && CheckEntry(s, vs[i]) == e
                          && (forall j :: 0 <= j < i ==> CheckEntry(s, vs[j]).None?))
  {
    if |vs| == 0 then None
    else if CheckEntry(s, vs[0]).Some? then
      assert CheckEntry(s, vs[0]).Some?;
      CheckEntry(s, vs[0])
    else
      var rest := CheckEach(s, vs[1..]);
      if rest.Some? then
        var i :| 0 <= i < |vs[1..]| && CheckEntry(s, vs[1..][i]) == rest
          && forall j :: 0 <= j < i ==> CheckEntry(s, vs[1..][j]).None?;
        assert vs[i + 1] == vs[1..][i];
        assert forall j :: 1 <= j < i + 1 ==> vs[j] == vs[1..][j - 1];
        rest
      else
        assert forall i :: 1 <= i < |vs| ==> vs[i] == vs[1..][i - 1];
        rest
  }

  /** One entry of the list: unboxing a `null` throws, an out-of-range
      vertex is refused. */
  function CheckEntry(s: Sap, x: Option<int>): (e: Option<Exception>)
    ensures e.None? <==> x.Some? && 0 <= x.value < s.vertices
  {
    match x
    case None => Some(NullPointer)
    case Some(v) => ValidateVertex(s, v)
  }

  /** The source's `validateVertices`: a null list is refused, then each
      entry is checked in order. */
  function ValidateVertices(s: Sap, vs: Option<seq<Option<int>>>): (e: Option<Exception>)
    ensures e.None? <==> vs.Some? && AllValid(s, vs.value)
    ensures vs.None? ==> e == Some(IllegalArgument)
  {
    if vs.None? then Some(IllegalArgument) else CheckEach(s, vs.value)
  }

  /** The vertices of a validated list. */
  function Unboxed(s: Sap, vs: seq<Option<int>>): (r: seq<int>)
    requires AllValid(s, vs)
    ensures |r| == |vs| && forall i :: 0 <= i < |vs| ==> r[i] == vs[i].value
  {
    seq(|vs|, i requires 0 <= i < |vs| => vs[i].value)
  }

  // ---------------------------------------------------------------------
  // The public queries
  // ---------------------------------------------------------------------

  /** The answers of `findSAP` for two source lists. */
  function Select(s: Sap, vs: seq<int>, ws: seq<int>, bfs: seq<int> -> Paths): (best: (int, int))
    requires OracleFits(s, bfs)
  {
    FindSap(s.vertices, bfs(vs), bfs(ws))
  }

  /** The source's `length(v, w)`. */
  function Length(s: Sap, v: int, w: int, bfs: seq<int> -> Paths): (r: Result<int>)
    requires OracleFits(s, bfs)
    ensures r.Err? <==> !(0 <= v < s.vertices && 0 <= w < s.vertices)
    ensures r.Err? ==> r.error == IllegalArgument
  {
    if ValidateVertex(s, v).Some? then Err(ValidateVertex(s, v).value)
    else if ValidateVertex(s, w).Some? then Err(ValidateVertex(s, w).value)
    else
      var best := Select(s, [v], [w], bfs);
      Ok(if best.0 == -1 then -1 else best.1)
  }

  /** The source's `ancestor(v, w)`. */
  function Ancestor(s: Sap, v: int, w: int, bfs: seq<int> -> Paths): (r: Result<int>)
    requires OracleFits(s, bfs)
    ensures r.Err? <==> !(0 <= v < s.vertices && 0 <= w < s.vertices)
    ensures r.Err? ==> r.error == IllegalArgument
  {
    if ValidateVertex(s, v).Some? then Err(ValidateVertex(s, v).value)
    else if ValidateVertex(s, w).Some? then Err(ValidateVertex(s, w).value)
    else
      var best := Select(s, [v], [w], bfs);
      Ok(if best.0 == -1 then -1 else best.0)
  }

  /** The source's `length(v, w)` on two lists of vertices. */
  function LengthOf(s: Sap, vs: Option<seq<Option<int>>>, ws: Option<seq<Option<int>>>, bfs: seq<int> -> Paths): (r: Result<int>)
    requires OracleFits(s, bfs)
    ensures r.Err? <==> !(vs.Some? && AllValid(s, vs.value) && ws.Some? && AllValid(s, ws.value))
  {
    if ValidateVertices(s, vs).Some? then Err(ValidateVertices(s, vs).value)
    else if ValidateVertices(s, ws).Some? then Err(ValidateVertices(s, ws).value)
    else
      var best := Select(s, Unboxed(s, vs.value), Unboxed(s, ws.value), bfs);
      Ok(if best.0 == -1 then -1 else best.1)
  }

  /** The source's `ancestor(v, w)` on two lists of vertices. */
  function AncestorOf(s: Sap, vs: Option<seq<Option<int>>>, ws: Option<seq<Option<int>>>, bfs: seq<int> -> Paths): (r: Result<int>)
    requires OracleFits(s, bfs)
    ensures r.Err? <==> !(vs.Some? && AllValid(s, vs.value) && ws.Some? && AllValid(s, ws.value))
  {
    if ValidateVertices(s, vs).Some? then Err(ValidateVertices(s, vs).value)
    else if ValidateVertices(s, ws).Some? then Err(ValidateVertices(s, ws).value)
    else
      var best := Select(s, Unboxed(s, vs.value), Unboxed(s, ws.value), bfs);
      Ok(if best.0 == -1 then -1 else best.0)
  }

  // ---------------------------------------------------------------------
  // Properties of the queries
  // ---------------------------------------------------------------------

  /** `length` is `-1` exactly when `ancestor` is, they fail alike, and
      otherwise `length` is the path length through the ancestor. */
  lemma LengthMatchesAncestor(s: Sap, v: int, w: int, bfs: seq<int> -> Paths)
    requires OracleFits(s, bfs)
    ensures Length(s, v, w, bfs).Err? == Ancestor(s, v, w, bfs).Err?
    ensures Length(s, v, w, bfs) == Ok(-1) <==> Ancestor(s, v, w, bfs) == Ok(-1)
    ensures Ancestor(s, v, w, bfs).Ok? && Ancestor(s, v, w, bfs).value != -1 ==>
      var a := Ancestor(s, v, w, bfs).value;
      0 <= a < s.vertices && Common(bfs([v]), bfs([w]), a)
      && Length(s, v, w, bfs) == Ok(Through(bfs([v]), bfs([w]), a))
  {
  }

  /** The same for the list overloads. */
  lemma LengthOfMatchesAncestorOf(s: Sap, vs: Option<seq<Option<int>>>, ws: Option<seq<Option<int>>>, bfs: seq<int> -> Paths)
    requires OracleFits(s, bfs)
    ensures LengthOf(s, vs, ws, bfs).Err? == AncestorOf(s, vs, ws, bfs).Err?
    ensures LengthOf(s, vs, ws, bfs).Err? ==> LengthOf(s, vs, ws, bfs) == AncestorOf(s, vs, ws, bfs)
    ensures LengthOf(s, vs, ws, bfs) == Ok(-1) <==> AncestorOf(s, vs, ws, bfs) == Ok(-1)
  {
  }

  /** An empty list passes the callers' checks. The answer is then what the
      search reports for no sources; a search that reaches nothing from no
      sources gives `-1`. */
  lemma EmptyListGivesNone(s: Sap, ws: Option<seq<Option<int>>>, bfs: seq<int> -> Paths)
    requires OracleFits(s, bfs)
    requires forall k :: 0 <= k < s.vertices ==> !bfs([]).hasPathTo[k]
    ensures AncestorOf(s, Some([]), ws, bfs).Ok? <==> ws.Some? && AllValid(s, ws.value)
    ensures AncestorOf(s, Some([]), ws, bfs).Ok? ==> AncestorOf(s, Some([]), ws, bfs) == Ok(-1)
    ensures LengthOf(s, Some([]), ws, bfs).Ok? ==> LengthOf(s, Some([]), ws, bfs) == Ok(-1)
  {
    assert Unboxed(s, []) == [];
    if ws.Some? && AllValid(s, ws.value) {
      FindSapIsLowestShortest(s.vertices, bfs([]), bfs(Unboxed(s, ws.value)));
    }
  }

  /** No common ancestor has a shorter path than the one `ancestor`
      reports, and none of lower index has one as short; `-1` means no
      common ancestor has a path shorter than `V`. */
  lemma AncestorIsLowestShortest(s: Sap, v: int, w: int, bfs: seq<int> -> Paths)
    requires OracleFits(s, bfs) && 0 <= v < s.vertices && 0 <= w < s.vertices
    ensures var pv, pw, a := bfs([v]), bfs([w]), Ancestor(s, v, w, bfs).value;
      (a == -1 <==> forall k :: 0 <= k < s.vertices && Common(pv, pw, k) ==> Through(pv, pw, k) >= s.vertices)
      && (a != -1 ==> forall k :: 0 <= k < s.vertices && Common(pv, pw, k) ==> Through(pv, pw, k) >= Through(pv, pw, a))
      && (a != -1 ==> forall k :: 0 <= k < a && Common(pv, pw, k) ==> Through(pv, pw, k) > Through(pv, pw, a))
  {
    FindSapIsLowestShortest(s.vertices, bfs([v]), bfs([w]));
  }

  /** Swapping the two vertices changes neither answer. */
  lemma QueriesSymmetric(s: Sap, v: int, w: int, bfs: seq<int> -> Paths)
    requires OracleFits(s, bfs)
    ensures Length(s, v, w, bfs).Ok? ==> Length(s, v, w, bfs) == Length(s, w, v, bfs)
    ensures Ancestor(s, v, w, bfs).Ok? ==> Ancestor(s, v, w, bfs) == Ancestor(s, w, v, bfs)
  {
    if 0 <= v < s.vertices && 0 <= w < s.vertices {
      ScanSymmetric(s.vertices, bfs([v]), bfs([w]), s.vertices);
    }
  }

  /** A vertex is its own shortest ancestor, at length 0, when the oracle
      answers as breadth-first search does. */
  lemma SelfIsAncestor(s: Sap, v: int, bfs: seq<int> -> Paths)
    requires OracleFits(s, bfs) && 0 <= v < s.vertices
    requires SearchedFrom(bfs([v]), [v])
    ensures Ancestor(s, v, v, bfs) == Ok(v)
    ensures Length(s, v, v, bfs) == Ok(0)
  {
    var p := bfs([v]);
    FindSapIsLowestShortest(s.vertices, p, p);
    var best := FindSap(s.vertices, p, p);
    assert Common(p, p, v) && Through(p, p, v) == 0;
    assert best.0 != -1;
    assert Through(p, p, best.0) == 0;
    assert best.0 in [v];
  }
}
