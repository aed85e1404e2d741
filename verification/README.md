# Algorithms coursework cores, modelled in Dafny

This project models four components of a collection of Java solutions to
classic algorithms exercises, and proves what each promises.

- **Seam carving** (`Carving/SeamCarver.java`). A picture is kept column-major
  as `SCColor[col][row]`, with a logical `width` and `height`. The model covers:
  - the dual-gradient `energy` with the border sentinel 1000;
  - the vertical seam finder, a shortest-path scan over the implicit
    row-by-row DAG using `relax` and `adjacent`;
  - the vertical seam remover, which shifts pixels left in place;
  - the horizontal finder and remover, which work on a transposed copy.
- **Percolation** (`Percolation/Percolation.java`). An `n`-by-`n` grid of
  blocked or open sites, addressed from 1. It sits on a union-find with a
  virtual top site `0` and a virtual bottom site `n*n + 1`.
- **Randomized queue** (`Queues/RandomizedQueue.java`). A resizing array with
  holes and a `[head, tail]` window. Items are removed or sampled at a random
  index, found by scanning down and wrapping round to `tail`. The iterator
  drains a copy of the array.
- **Shortest ancestral path** (`WordNet/SAP.java`). `findSAP` scans every
  vertex. Among the vertices reachable from both sides it picks the lowest
  one with the least distance sum, starting from the bound `V`. Four public
  queries wrap it, with vertex validation.

Modules and files:

| file | module | contents |
|---|---|---|
| `results.dfy` | `Results` | `Option`, `Exception` (the Java exceptions thrown), `Result`, and `Outcome`, a state together with the exception that interrupted the operation, if any |
| `seam_search.dfy` | `SeamSearch` | reference definition of the cheapest seam over any real weight field, and the source's loop nest proved to compute it |
| `seam_carver.dfy` | `SeamCarver` | the carver: energy, finding and removing seams |
| `union_closure.dfy` | `UnionClosure` | union-find as the equivalence closure of the recorded `union` calls |
| `percolation.dfy` | `Percolation` | the percolation grid |
| `randomized_queue.dfy` | `RandomizedQueue` | the randomized queue and its iterator |
| `sap.dfy` | `ShortestAncestralPath` | the shortest-ancestral-path selection and queries |

An exception becomes an `Err` or an `Outcome` with a `thrown` exception.
The Java `null` becomes `None`. A random index becomes a nondeterministic
choice within the range `StdRandom.uniform` promises. Breadth-first search
results are a function parameter (an oracle), and `Math.sqrt` is a function
parameter `sqrt: nat -> real`.

The model follows the code as written, including these behaviours:

- The seam remover validates row by row while it shifts. A seam that fails
  half-way leaves the earlier rows shifted and `width` unchanged.
- Nothing stops the remover at `width == 1`: the last column can be removed.
- A negative seam entry is not refused by the remover's own check. It throws
  `ArrayIndexOutOfBoundsException` from the shift loop, unless no column
  remains to shift.
- Adjacency is checked only from row 2 on (see Findings).
- The top row adds nothing to a seam's cost, because `distTo[c][0]` is 0.
  Ties go to the lowest end and the lowest predecessor. On a uniform 3-by-3
  picture the seam is therefore `[0, 1, 0]`.

## Model

| member | source | states |
|---|---|---|
| SeamCarver.Energy | Carving/SeamCarver.java:73-93 | `energy(x, y)` throws `IllegalArgumentException` exactly when `(x, y)` is outside `[0, width) x [0, height)`, and is 1000 on every pixel of the first or last column or row |
| SeamCarver.Delta2Properties | Carving/SeamCarver.java:186-193 | `delta2` is symmetric in its two colours and is zero exactly when the colours are equal |
| SeamCarver.EnergyIsLocal | Carving/SeamCarver.java:82-91 | the energy of an interior pixel depends only on its four orthogonal neighbours |
| SeamCarver.EnergyNonNegative | Carving/SeamCarver.java:73-93 | energy is never negative when the square root is not |
| SeamCarver.EnergyTransposed | Carving/SeamCarver.java:82-91 | transposing the picture transposes the energies |
| SeamCarver.EnergyFieldTransposed | Carving/SeamCarver.java:96-110 | the energy matrix of the transposed copy is the transposed energy matrix |
| SeamCarver.Transposed | Carving/SeamCarver.java:98-106 | the copy the horizontal operations build has the dimensions swapped and holds the transposed picture |
| SeamCarver.TransposeTwice | Carving/SeamCarver.java:130-147 | transposing twice gives the picture back |
| SeamCarver.VerticalSeam | Carving/SeamCarver.java:113-127 | `findVerticalSeam` returns a seam exactly when both dimensions are non-negative and are zero together; the seam has `height` entries, each a column, consecutive entries at most one apart |
| SeamCarver.FindVerticalSeam | Carving/SeamCarver.java:113-127 | the loop filling the energy matrix, followed by the shortest-path scan, returns exactly `VerticalSeam` |
| SeamCarver.VerticalSeamIsOptimal | Carving/SeamCarver.java:196-241 | no connected path of `height` columns collects less energy in rows 1 and below than the returned seam |
| SeamCarver.VerticalSeamEndTieBreak | Carving/SeamCarver.java:223-228 | a path ending left of the returned seam's end costs strictly more |
| SeamCarver.VerticalSeamIsMinSeam | Carving/SeamCarver.java:113-127 | for a non-empty picture the seam is the cheapest seam of its energy matrix |
| SeamCarver.VerticalSeamOneColumn | Carving/SeamCarver.java:253-256 | in a one-column picture the seam is all zeros |
| SeamCarver.VerticalSeamOneRow | Carving/SeamCarver.java:201-228 | in a one-row picture the seam is `[0]` |
| SeamCarver.HorizontalSeam | Carving/SeamCarver.java:96-110 | `findHorizontalSeam` returns a seam of `width` entries, each a row, consecutive entries at most one apart |
| SeamCarver.HorizontalSeamIsTransposedMinSeam | Carving/SeamCarver.java:96-110 | the horizontal seam is the cheapest seam of the transposed energy matrix |
| SeamCarver.HorizontalSeamIsOptimal | Carving/SeamCarver.java:96-110 | no horizontal path collects less energy than the horizontal seam |
| SeamCarver.RemoveVerticalSeamFrom | Carving/SeamCarver.java:153-183 | a null seam, or one whose length is not `height`, throws and changes nothing; otherwise `width` drops by one exactly when no row check fails, and `height` never changes |
| SeamCarver.FirstFailure | Carving/SeamCarver.java:164-181 | the first row of the seam whose check fails: every earlier row passes |
| SeamCarver.RemoveRowsThrown | Carving/SeamCarver.java:164-181 | the row loop throws the exception of the first failing row check, and nothing if none fails |
| SeamCarver.RemoveRowsAt | Carving/SeamCarver.java:164-181 | after the row loop, a pixel comes from the column to its right exactly when its row is before the first failing check and its column is at or right of the seam entry and left of the last column |
| SeamCarver.RemoveRowsEffect | Carving/SeamCarver.java:164-181 | the row loop shifts exactly the rows before the first failing check and leaves the others untouched |
| SeamCarver.RemoveVerticalSeamFromSucceedsIff | Carving/SeamCarver.java:153-183 | removal succeeds exactly when the seam has `height` entries, none above the last column, none negative while a column remains to shift, and each from the first checked row on within one column of the entry above |
| SeamCarver.RemoveVerticalSeamSucceedsIff | Carving/SeamCarver.java:153-183 | the source's removal succeeds exactly when those conditions hold, with adjacency required only from row 2 on |
| SeamCarver.RowOneGapAccepted | Carving/SeamCarver.java:171 | on a 3-by-2 picture the source accepts the seam `[0, 2]`, and the corrected removal refuses it |
| SeamCarver.RemoveVerticalSeamFixedAcceptsPaths | Carving/SeamCarver.java:153-183 | with every row checked, a picture at least one column wide accepts exactly the connected paths of `height` columns |
| SeamCarver.FoundSeamIsRemovable | Carving/SeamCarver.java:113-183 | the seam the finder returns is accepted by both the source's removal and the corrected one |
| SeamCarver.RemoveVerticalSeamContent | Carving/SeamCarver.java:164-183 | after a successful removal, in each row the pixels left of the seam entry stay and those right of it move one column left; `width` drops by one and `height` stays |
| SeamCarver.RemovedSeamInPicture | Carving/SeamCarver.java:160-169 | every entry of an accepted seam is a column of the picture |
| SeamCarver.RemoveVerticalSeamPartial | Carving/SeamCarver.java:164-181 | a removal that fails on a row check leaves `width` unchanged, the rows before the failing one shifted and the rest untouched |
| SeamCarver.RemoveLastColumn | Carving/SeamCarver.java:153-183 | a one-column picture accepts the all-zero seam, keeps its pixels, and `width` becomes 0 |
| SeamCarver.RemoveHorizontalSeamFrom | Carving/SeamCarver.java:130-150 | horizontal removal keeps `width`, drops `height` by one on success, and on failure leaves the carver exactly as it was |
| SeamCarver.RemoveHorizontalSeamIsTransposed | Carving/SeamCarver.java:130-150 | horizontal removal succeeds and throws exactly as the vertical removal of the transposed picture does, and on success the picture is that result transposed back |
| SeamSearch.Adjacent | Carving/SeamCarver.java:252-272 | the columns of the next row reachable from column `v` are exactly the columns within one of `v`, in increasing order |
| SeamSearch.Parent | Carving/SeamCarver.java:244-250 | the predecessor recorded in `edgeTo` is one of the adjacent columns of the row above |
| SeamSearch.DistViaParent | Carving/SeamCarver.java:244-250 | each distance below row 0 is the predecessor's distance plus the pixel's energy |
| SeamSearch.ParentIsLeast | Carving/SeamCarver.java:244-250 | no adjacent column of the row above is closer than the predecessor |
| SeamSearch.ParentIsFirst | Carving/SeamCarver.java:246 | the strict comparison in `relax` sends ties to the lowest predecessor: adjacent columns left of it are strictly farther |
| SeamSearch.Trace | Carving/SeamCarver.java:233-238 | following `edgeTo` from a pixel of row `r` yields a connected path of `r + 1` columns ending there |
| SeamSearch.TraceCost | Carving/SeamCarver.java:233-238 | the path traced from a pixel costs exactly that pixel's `distTo` |
| SeamSearch.TracePrefix | Carving/SeamCarver.java:233-238 | every prefix of a traced path is the path traced from its last pixel |
| SeamSearch.TraceParents | Carving/SeamCarver.java:233-238 | each pixel of a traced path is the recorded predecessor of the pixel below it |
| SeamSearch.BestEndIsLeast | Carving/SeamCarver.java:220-228 | no column of the last row ends closer than the chosen end |
| SeamSearch.BestEndIsFirst | Carving/SeamCarver.java:224 | every column left of the chosen end ends strictly farther |
| SeamSearch.MinSeam | Carving/SeamCarver.java:196-241 | the reference seam has `height` entries and is a connected path of columns |
| SeamSearch.DistIsLowerBound | Carving/SeamCarver.java:201-217 | no connected path to a pixel costs less than its `distTo` |
| SeamSearch.MinSeamIsOptimal | Carving/SeamCarver.java:196-241 | no connected path through all rows costs less than the reference seam |
| SeamSearch.MinSeamEndTieBreak | Carving/SeamCarver.java:223-228 | every path ending left of the reference seam's end costs strictly more |
| SeamSearch.MinSeamParents | Carving/SeamCarver.java:235-238 | each pixel of the seam above the last row is the recorded predecessor of the pixel below |
| SeamSearch.MinSeamPrefixCost | Carving/SeamCarver.java:201-238 | the first `i` pixels of the seam cost the `distTo` of its pixel in row `i - 1` |
| SeamSearch.MinSeamParentTieBreak | Carving/SeamCarver.java:244-250 | a path reaching a column left of the seam's predecessor, and adjacent to the seam's pixel, already costs strictly more than the seam's prefix |
| SeamSearch.MinSeamOneRow | Carving/SeamCarver.java:201-228 | a one-row field yields the seam `[0]` |
| SeamSearch.Relax | Carving/SeamCarver.java:211-216 | one pass of `relax` over every edge out of a row leaves each column of the next row at the best candidate so far, lowest predecessor on ties, infinity and `-1` where no edge reached |
| SeamSearch.RelaxRow | Carving/SeamCarver.java:211-217 | relaxing row `r` yields row `r + 1` of `distTo` and `edgeTo` |
| SeamSearch.RelaxedIsDist | Carving/SeamCarver.java:244-250 | a fully relaxed column holds its reference distance and predecessor |
| SeamSearch.LeastEnd | Carving/SeamCarver.java:220-228 | the final scan picks the first column of the last row with the least distance |
| SeamSearch.FollowEdges | Carving/SeamCarver.java:230-238 | the backtracking loop returns the path traced from the chosen end |
| SeamSearch.ShortestPath | Carving/SeamCarver.java:196-241 | `ShortestPath` returns exactly the reference cheapest seam, which has `height` entries and is connected |
| UnionClosure.ConnectedIffJoined | Percolation/Percolation.java:30-36 | two sites are connected exactly when a chain of recorded `union` pairs joins them |
| UnionClosure.UnionConnects | Percolation/Percolation.java:98 | the pair just passed to `union` is connected |
| UnionClosure.ConnectedGrows | Percolation/Percolation.java:98 | recording more unions never disconnects a pair |
| Percolation.New | Percolation/Percolation.java:22-46 | the constructor rejects `n <= 0` with `IllegalArgumentException`; otherwise every site is blocked and the recorded unions are exactly the boundary unions, in the loop's order |
| Percolation.BoundaryUnionsAt | Percolation/Percolation.java:33-36 | round `k + 1` of the constructor joins the top site with site `k + 1` and the bottom site with site `n*n - k` |
| Percolation.BoundaryUnionsInRange | Percolation/Percolation.java:30-36 | the constructor's unions name sites of the union-find |
| Percolation.RowStartIsProduct | Percolation/Percolation.java:58 | the row offset is `(row - 1) * n` |
| Percolation.SquareIsProduct | Percolation/Percolation.java:28 | the site count is `n * n` |
| Percolation.XyTo1D | Percolation/Percolation.java:57-60 | a grid site is numbered within `1 .. n*n` |
| Percolation.XyTo1DInjective | Percolation/Percolation.java:57-60 | distinct grid sites get distinct numbers, and none is a virtual site |
| Percolation.IsOpen | Percolation/Percolation.java:107-115 | `isOpen` throws `IndexOutOfBoundsException` exactly outside the grid |
| Percolation.IsFull | Percolation/Percolation.java:118-127 | `isFull` throws `IndexOutOfBoundsException` exactly outside the grid |
| Percolation.IsFullMeaning | Percolation/Percolation.java:118-127 | a site is full exactly when it is open and a chain of unions joins it to the top site, so a full site is open |
| Percolation.PercolatesMeaning | Percolation/Percolation.java:141-149 | the system percolates exactly when a chain of unions joins the two virtual sites |
| Percolation.TopRowConnected | Percolation/Percolation.java:33-34 | every first-row site, open or not, is connected to the top site |
| Percolation.BottomRowConnected | Percolation/Percolation.java:33-35 | every last-row site, open or not, is connected to the bottom site |
| Percolation.SingleSitePercolates | Percolation/Percolation.java:33-36 | a one-site grid percolates before its site is opened |
| Percolation.NewDoesNotPercolate | Percolation/Percolation.java:32-36 | a new grid with at least two rows does not percolate: the constructor joins the top only to the first row and the bottom only to the last, so no chain of its unions leads from top to bottom |
| Percolation.Links | Percolation/Percolation.java:90-104 | `open` joins the site with every listed neighbour that is in the grid and open, and with nothing else: every union it records joins the site to such a neighbour, and all name sites of the union-find |
| Percolation.Open | Percolation/Percolation.java:79-105 | `open` throws exactly outside the grid and then changes nothing; an already open site is returned unchanged; otherwise exactly that site's flag becomes set, unions are only added, and each added union joins the site to a neighbour that was already open |
| Percolation.OpenBlocked | Percolation/Percolation.java:88-104 | opening a blocked site sets exactly its flag, keeps the recorded unions as a prefix, and adds only unions from the site to neighbours in the grid that were open before |
| Percolation.OpenOpenSite | Percolation/Percolation.java:84-86 | `open` on a site that is already open returns the grid unchanged and throws nothing |
| Percolation.OpenIdempotent | Percolation/Percolation.java:84-86 | opening a site twice is opening it once |
| Percolation.OpenJoinsNeighbours | Percolation/Percolation.java:88-104 | opening a blocked site makes it open and connects it to each open neighbour |
| Percolation.OpenKeepsConnected | Percolation/Percolation.java:79-105 | a pair connected before `open` stays connected |
| Percolation.OpenKeepsNeighboursJoined | Percolation/Percolation.java:79-105 | `open` keeps every pair of adjacent open sites connected |
| Percolation.NewNeighboursJoined | Percolation/Percolation.java:38-44 | a new grid has no adjacent open sites to connect |
| Percolation.FullStaysFull | Percolation/Percolation.java:79-127 | a full site stays full when any site is opened |
| Percolation.OpenTopRowIsFull | Percolation/Percolation.java:33-34 | an opened first-row site is full |
| Percolation.NumberOfOpenSites | Percolation/Percolation.java:129-139 | `numberOfOpenSites` counts the set flags of the whole array |
| Percolation.NewHasNoOpenSites | Percolation/Percolation.java:38-44 | a new grid has no open sites |
| Percolation.OpenCount | Percolation/Percolation.java:88 | `open` adds one open site when the site was blocked and none otherwise |
| RandomizedQueue.New | Queues/RandomizedQueue.java:30-36 | a new queue is valid, holds no items, and has size 0 |
| RandomizedQueue.IsEmpty | Queues/RandomizedQueue.java:38-41 | `isEmpty` holds exactly when the queue holds no items |
| RandomizedQueue.Size | Queues/RandomizedQueue.java:43-46 | `size` is the number of items held |
| RandomizedQueue.Resize | Queues/RandomizedQueue.java:48-64 | `resize` packs the items, in order, into the front of the new array; `head` becomes 0 and `tail` becomes `n - 1`; the invariant and the items are kept |
| RandomizedQueue.CompactPacked | Queues/RandomizedQueue.java:53-58 | packing the items into the front of an array loses none of them |
| RandomizedQueue.Enqueue | Queues/RandomizedQueue.java:66-74 | a null item throws and changes nothing; otherwise exactly one occurrence of the item is added, the size grows by one and the invariant holds |
| RandomizedQueue.Search | Queues/RandomizedQueue.java:81-88 | the scan from a random index stops at an occupied window slot: the nearest one at or below the index, or else the highest one |
| RandomizedQueue.NarrowKeepsValid | Queues/RandomizedQueue.java:90-99 | emptying an occupied slot and narrowing the window keeps the invariant, with exactly that item removed |
| RandomizedQueue.Take | Queues/RandomizedQueue.java:81-99 | taking an item removes exactly one occurrence of an item that was held and keeps the invariant |
| RandomizedQueue.Dequeue | Queues/RandomizedQueue.java:76-105 | `dequeue` throws `NoSuchElementException` exactly on an empty queue; otherwise it returns a held item, removes one occurrence of it, and the size drops by one |
| RandomizedQueue.Sample | Queues/RandomizedQueue.java:107-122 | `sample` throws exactly on an empty queue, and otherwise returns a held item |
| RandomizedQueue.Iterate | Queues/RandomizedQueue.java:131-149 | the iterator's copy holds the queue's items and count and keeps the invariant |
| RandomizedQueue.HasNext | Queues/RandomizedQueue.java:151-153 | `hasNext` holds exactly while the copy holds items |
| RandomizedQueue.Next | Queues/RandomizedQueue.java:155-180 | `next` throws exactly when no items remain, and otherwise returns an item of the copy and removes one occurrence of it |
| RandomizedQueue.Drain | Queues/RandomizedQueue.java:124-180 | iterating until `hasNext` fails yields every item of the queue exactly once |
| ShortestAncestralPath.New | WordNet/SAP.java:27-31 | the constructor rejects a null digraph and otherwise keeps its vertex count |
| ShortestAncestralPath.Scan | WordNet/SAP.java:120-144 | after the first `i` vertices, the choice is `-1` with bound `V`, or a common ancestor with a path shorter than `V`; no earlier common ancestor is shorter, and none of lower index is as short |
| ShortestAncestralPath.FindSapIsLowestShortest | WordNet/SAP.java:120-144 | `findSAP` finds no ancestor exactly when every common ancestor has a path of at least `V`; otherwise the ancestor is reachable from both sides, the length is the sum of its distances, no common ancestor is shorter, and ties go to the lowest index |
| ShortestAncestralPath.ScanSymmetric | WordNet/SAP.java:120-144 | the selection does not depend on which side is which |
| ShortestAncestralPath.ValidateVertex | WordNet/SAP.java:147-150 | `validateVertex` throws `IllegalArgumentException` exactly outside `[0, V)` |
| ShortestAncestralPath.CheckEach | WordNet/SAP.java:157-161 | the loop over the list fails exactly when some entry is null or out of range, with the failure of the first such entry |
| ShortestAncestralPath.ValidateVertices | WordNet/SAP.java:153-162 | `validateVertices` throws `IllegalArgumentException` on a null list, and otherwise fails exactly when an entry is null or out of range |
| ShortestAncestralPath.Length | WordNet/SAP.java:34-53 | `length(v, w)` throws exactly when `v` or `w` is not a vertex |
| ShortestAncestralPath.Ancestor | WordNet/SAP.java:56-74 | `ancestor(v, w)` throws exactly when `v` or `w` is not a vertex |
| ShortestAncestralPath.LengthOf | WordNet/SAP.java:77-96 | the list overload of `length` throws exactly when a list is null or holds a null or out-of-range entry |
| ShortestAncestralPath.AncestorOf | WordNet/SAP.java:99-118 | the list overload of `ancestor` throws exactly when a list is null or holds a null or out-of-range entry |
| ShortestAncestralPath.LengthMatchesAncestor | WordNet/SAP.java:34-74 | `length` is `-1` exactly when `ancestor` is, and otherwise is the path length through the reported ancestor, which is reachable from both vertices |
| ShortestAncestralPath.LengthOfMatchesAncestorOf | WordNet/SAP.java:77-118 | the list overloads fail alike, and `length` is `-1` exactly when `ancestor` is |
| ShortestAncestralPath.EmptyListGivesNone | WordNet/SAP.java:77-118 | an empty source list passes validation, so the list overloads answer exactly when the other list is valid; if the search reaches nothing from no sources, both answer `-1` |
| ShortestAncestralPath.AncestorIsLowestShortest | WordNet/SAP.java:56-74 | no common ancestor has a shorter path than the reported one, none of lower index has one as short, and `-1` means none has a path shorter than `V` |
| ShortestAncestralPath.QueriesSymmetric | WordNet/SAP.java:34-74 | swapping the two vertices changes neither answer |
| ShortestAncestralPath.SelfIsAncestor | WordNet/SAP.java:120-144 | when the search answers as breadth-first search does, a vertex is its own ancestor at length 0 |

`width()` and `height()` are the `width` and `height` fields of the carver.

## Left out

- The `main` methods of all four classes: command-line parsing, file
  reading and printing.
- The `SeamCarver` constructor and `picture()`, which copy pixels to and
  from the picture library. The model starts from a given grid (`FromGrid`).
  Of the library's own checks on picture sizes, only the refusal of a
  negative size is modelled (in `HorizontalSeam` and
  `RemoveHorizontalSeamFrom`).
- Floating point. `delta2` is an exact integer and `Math.sqrt` is an
  arbitrary function parameter. Distances are exact reals, and infinity is
  `None`.
- 32-bit integer overflow, and `(int) Math.pow(n, 2.0)`, which is taken as
  `n * n`.
- The internals of the `WeightedQuickUnionUF` library. The union-find is the
  equivalence closure of the recorded `union` calls, replayed with one label
  per site. Its weighting and path shapes are not modelled.
- The internals of `BreadthFirstDirectedPaths` and `Digraph`. The search
  results are an oracle, and only the digraph's vertex count is kept. The
  library's own validation of source vertices is not modelled, because the
  callers check for a null list and for null or out-of-range entries first.
  The callers do not refuse an empty list. For an empty list the answer is
  whatever the oracle reports for no sources; a library version that accepts
  an empty list reaches nothing from it, and then the answer is -1
  (`EmptyListGivesNone`). Versions that refuse an empty list would throw
  there instead. `SelfIsAncestor` assumes of the oracle only what
  breadth-first search promises about its sources.
- The uniformity of the random choice in the queue. Only the range of the
  random index is modelled.
- ShortestAncestralPath.FindSapIsLowestShortest: states what the scan does
  with its starting bound `V`, but does not prove that the least distance
  sum is always below `V`. That needs the digraph's edges, which the oracle
  hides. In a real digraph the two shortest paths to the best ancestor meet
  only there, so the sum is at most `V - 1` and no ancestor is missed.

## Findings

| source | as written | input that shows it | evidently intended | confidence | as-written member | corrected member |
|---|---|---|---|---|---|---|
| Carving/SeamCarver.java:171 | `removeVerticalSeam` compares a seam entry with the one above only when `r > 1`, so rows 0 and 1 are never compared | a 3-by-2 picture with seam `[0, 2]`: the seam is removed although its first two entries are two columns apart | every row after the first is within one column of the row above (`r > 0`); then exactly the connected paths the finder produces are accepted | high; not executed | SeamCarver.RowOneGapAccepted | SeamCarver.RemoveVerticalSeamFixedAcceptsPaths |
