# Shortest road routes on an OpenStreetMap extract

This project models the routing core of the `astar` repository in Dafny. That core comes in two
copies:

- **Browser copy** (`public/script.js`):
  - `buildGraph` turns the ways returned by the Overpass API into an adjacency-list graph, held in
    a page-global variable.
  - `findClosestPoint` snaps a map click onto the road network. It uses `projectPointOnLine`.
  - `dijkstra` finds a shortest route between two node keys. Its queue holds node keys and is
    re-sorted by distance on every round.
- **Server copy** (`public/pathSearcher.js`):
  - the graph loop of `getGraphData` builds a map of maps, in which a later segment overwrites the
    weight of an earlier one;
  - `calculateShortestPath` snaps both coordinates to their nearest nodes with `findNearestNode`,
    then runs a Dijkstra search;
  - that search's queue holds `{node, distance}` entries and gets a new entry every time a
    distance improves;
  - `reconstructPath` rebuilds the path from the predecessor links.

The files:

| file | models |
|---|---|
| `Common.dfy` | ways and their segments, key creation order, distances with infinity, the stable `Array.prototype.sort`, first-nearest scans |
| `BrowserGraph.dfy` | `buildGraph`, as the class `RoadMap` holding the global `graph` |
| `BrowserSnap.dfy` | `projectPointOnLine` (as written, and corrected) and `findClosestPoint` |
| `BrowserRoute.dfy` | `dijkstra` |
| `ServerGraph.dfy` | the graph-building loop of `getGraphData` |
| `ServerRoute.dfy` | `findNearestNode`, `reconstructPath` and `calculateShortestPath` |

Modelling choices:

- **Node keys.** In the source, a node key is the string `"lat,lng"`. Here it is an abstract type
  `P`, because two points with the same key are the same node.
- **Lengths and distances.** Segment lengths are an abstract function `length: (P, P) -> nat`.
  Click distances are an abstract function `d` (the on-screen `getDistance`), and Leaflet's
  `distanceTo`, which `projectPointOnLine` uses to measure a segment, an abstract function
  `metres`. Every property is proved for all such functions.
- **Specification functions.** Each operation that updates state step by step is a method or a
  class method with loops. Its result is tied to a specification function:
  - `Incident` gives the browser adjacency list of a node;
  - `LastLink` gives the server weight of a link;
  - `KeyOrder` gives the creation order of the keys;
  - `LineProjections` gives the projections of a click;
  - `Chain` gives the predecessor chain of a node.
- **What the searches promise.** The main results, proved for all graphs:
  - the route is empty exactly when the end is unreachable;
  - otherwise the route is a walk from start to end whose weight is at most that of every walk;
  - a search from a node to itself returns that node alone.

- **Ties.** Extraction ties follow the order of the re-sorted queue, modelled by an insertion
  sort that keeps equal keys in queue order. No contract depends on which of several nodes of
  least distance is taken.
- **Repeated and zero-length segments.** The browser graph keeps duplicate entries for a repeated
  segment. Zero-length segments, including self-loops, are allowed.

Where the code and its own documentation disagree, the model follows the code:

- **Snapping preference.** The doc comment of `findClosestPoint` (public/script.js:164-174)
  promises the point nearest to the click among the nodes and the points of the segments. The
  code returns the nearest node whenever any node exists (`closestNode || closestLinePoint`),
  however close a projected point is.

## Model

| member | source | states |
|---|---|---|
| Common.Plus | public/script.js:331 | `alt` is never below `distances[current]`, and is finite exactly when `distances[current]` is |
| Common.PlusMonotone | public/script.js:331 | adding the same length keeps the order of two distances, strict and non-strict; adding two lengths in turn adds their sum |
| Common.PairsOf | public/script.js:271-273 | the segments of a way are its consecutive point pairs, `length - 1` of them (none for fewer than two points) |
| Common.SegmentsMembers | public/script.js:268-273 | a pair is a segment of the feed iff it is a consecutive pair of some way that has a geometry |
| Common.KeyOrderLists | public/script.js:280-281 | the keys created, in creation order, are distinct and are exactly the endpoints of the segments |
| Common.KeysStep | public/pathSearcher.js:44-45 | adding a segment creates its missing endpoint keys, in the order start then end |
| Common.SortBy | public/script.js:323 | the re-sorted queue holds the same elements as the queue, with the same multiplicities |
| Common.SortBySorted | public/script.js:323 | the re-sorted queue is ordered by the sort key |
| Common.InsertBySorted | public/pathSearcher.js:97 | inserting into a sorted queue keeps it sorted |
| Common.FirstNearestAppend | public/script.js:180-186 | the strict `<` scan keeps the first of the nearest points when one more point is seen |
| BrowserGraph.RoadMap.constructor | public/script.js:267 | the graph starts empty, with no keys |
| BrowserGraph.RoadMap.AddSegment | public/script.js:276-285 | one segment creates its missing keys and appends `{B, L}` to `A`'s list and `{A, L}` to `B`'s |
| BrowserGraph.RoadMap.AddWay | public/script.js:270-286 | the graph afterwards is the one built from all consecutive pairs of the way's points |
| BrowserGraph.RoadMap.BuildGraph | public/script.js:266-289 | the graph is reset and then holds, for each key, exactly the reference adjacency list of all segments, and nothing else |
| BrowserGraph.IncidentAppend | public/script.js:284-285 | a new segment extends only its endpoints' lists, by one entry each (two for a self-loop) |
| BrowserGraph.IncidentOutside | public/script.js:280-281 | a node that no segment touches has an empty list |
| BrowserGraph.IncidentSymmetric | public/script.js:284-285 | `{B, L}` occurs in `A`'s list exactly as often as `{A, L}` occurs in `B`'s |
| BrowserGraph.IncidentIsSegment | public/script.js:271-285 | `{B, L}` is in `A`'s list iff some segment joins `A` and `B` with length `L` |
| BrowserGraph.EntryCount | public/script.js:284-285 | over all keys, the graph holds exactly two entries per segment |
| BrowserSnap.ProjectPointOnLine | public/script.js:224-250 | whatever `lineLength` is, the as-written projection lies on the closed segment, and a zero `lineLength` gives `lineStart` |
| BrowserSnap.ProjectPointOnLineMissesEnd | public/script.js:228-247 | as written, projecting the end point of the segment (0,0)-(0,1) does not give that end point for any `lineLength` above 1 |
| BrowserSnap.ProjectOnSegmentIsNearest | public/script.js:224-250 | the corrected projection lies on the segment and is at least as near to the point as every other point of the segment |
| BrowserSnap.ProjectionNearerThan | public/script.js:237-249 | the corrected projection is no farther than the point at any parameter in [0, 1] |
| BrowserSnap.ProjectOnSegmentEnds | public/script.js:245-247 | the corrected projection maps each end point of a segment to itself |
| BrowserSnap.ProjectOnSegment | public/script.js:224-250 | the corrected projection lies on the closed segment |
| BrowserSnap.ProjectPointOnLinePlaneLength | public/script.js:228-237 | given the segment's length in the units of its coordinates, the as-written projection equals the corrected one |
| BrowserSnap.LineProjections | public/script.js:193-196 | a polyline of `n` points gives `n - 1` projections |
| BrowserSnap.LineProjectionsAt | public/script.js:193-196 | the `i`-th projection is `projectPointOnLine` of the click onto the segment from point `i` to point `i + 1`, and lies on that segment |
| BrowserSnap.LineProjectionsNearest | public/script.js:193-196 | where `distanceTo` measures a segment in degree units, its projection is the point of the segment nearest to the click |
| BrowserSnap.ClosestNode | public/script.js:176-186 | null iff there is no node, otherwise the first node of least distance |
| BrowserSnap.ScanLine | public/script.js:193-202 | scanning one polyline with `projectPointOnLine` keeps the kept point the first nearest of all projections seen so far |
| BrowserSnap.ClosestLinePoint | public/script.js:188-203 | null iff there is no segment, otherwise the first of the as-written projections of least distance |
| BrowserSnap.FindClosestPoint | public/script.js:175-207 | the first nearest node when there is a node; otherwise the first nearest of the as-written projections; null iff neither exists |
| BrowserRoute.Reversed | public/script.js:346 | reversing keeps the length |
| BrowserRoute.ReversedElements | public/script.js:346 | the `i`-th element of the reversal is the `i`-th from the end |
| BrowserRoute.ReversedAppend | public/script.js:344-346 | pushing then reversing puts the pushed node first |
| BrowserRoute.SortedFirstLeast | public/script.js:323-324 | after the re-sort the first queued node has the least distance of the queue |
| BrowserRoute.Relax | public/script.js:330-338 | relaxation: no distance grows; every edge from `current` to a queued node is relaxed; a changed node is queued, got `distances[current] + length` strictly smaller, and has `current` as predecessor; other nodes keep their predecessor |
| BrowserRoute.RelaxEdgeUpdate | public/script.js:334-337 | an improving edge keeps the relaxation description of the edges so far |
| BrowserRoute.Frontier | public/script.js:321-339 | every walk from start to a queued node passes through a queued node whose distance is at most the walk's weight |
| BrowserRoute.Settle | public/script.js:323-324 | the queued node of least distance has its final distance, a lower bound on every walk to it |
| BrowserRoute.ExtractKeepsQueue | public/script.js:323-324 | taking the first node keeps every untaken key queued exactly once, and the taken node's distance final |
| BrowserRoute.ExtractMultiset | public/script.js:324 | `shift` removes exactly the first node from the keys still queued |
| BrowserRoute.ExtractKeepsChain | public/script.js:324 | taking a node keeps every predecessor link valid |
| BrowserRoute.ExtractKeepsRelaxed | public/script.js:324 | taking a node keeps the earlier taken nodes' edges relaxed |
| BrowserRoute.RelaxKeepsTaken | public/script.js:334 | relaxation never changes the distance of a node already taken |
| BrowserRoute.RelaxKeepsChain | public/script.js:330-338 | relaxation keeps every predecessor link a graph edge that realises the node's distance |
| BrowserRoute.RelaxKeepsRelaxed | public/script.js:330-338 | after relaxation every taken node's edges are relaxed |
| BrowserRoute.ExtractStep | public/script.js:321-328 | one extraction keeps the search invariants and gives the taken node the next rank |
| BrowserRoute.RelaxStep | public/script.js:330-338 | one relaxation round keeps the search invariants |
| BrowserRoute.Initialise | public/script.js:312-319 | every key at Infinity, `start` at 0, every predecessor null, the queue the keys in creation order |
| BrowserRoute.FollowStep | public/script.js:343-344 | stepping back from a walk's first node to its predecessor gives a walk one link longer whose weights still add up to `end`'s distance |
| BrowserRoute.FollowPrevious | public/script.js:342-346 | the reversed predecessor chain is a walk in the graph that ends at `end`, starts at a node without predecessor, and realises `end`'s distance |
| BrowserRoute.Dijkstra | public/script.js:307-354 | `[]` iff `end` is unreachable from `start`; otherwise a walk from `start` to `end` of least weight; `[start]` when `start == end` |
| ServerGraph.LastLinkAppend | public/pathSearcher.js:48-49 | a new segment sets the weight of its link in both directions and leaves every other weight |
| ServerGraph.LastLinkOutside | public/pathSearcher.js:44-45 | a node that no segment touches has no links |
| ServerGraph.SetLink | public/pathSearcher.js:38-49 | one segment creates its missing keys and sets `graph[A][B]` and `graph[B][A]` to its length |
| ServerGraph.RowStep | public/pathSearcher.js:48-49 | one segment changes exactly the rows of its two endpoints |
| ServerGraph.SetWayLinks | public/pathSearcher.js:35-50 | the graph afterwards is the one built from all consecutive pairs of the way's points |
| ServerGraph.GetGraphData | public/pathSearcher.js:21-53 | no or empty elements give the empty graph; otherwise keys in creation order and, for each pair of nodes, the weight of the last segment joining them |
| ServerGraph.LastLinkSymmetric | public/pathSearcher.js:48-49 | the graph is undirected: `graph[A][B]` and `graph[B][A]` agree |
| ServerGraph.LastLinkIsLastSegment | public/pathSearcher.js:29-50 | a link exists iff some segment joins its ends, and its weight is that of the last such segment |
| ServerGraph.GraphSymmetric | public/pathSearcher.js:48-49 | in the built graph every link has its reverse link, with the same weight |
| ServerRoute.Chain | public/pathSearcher.js:146-151 | the chain ends at the node, starts at a node with null predecessor, and each node's predecessor is the one before it |
| ServerRoute.ReconstructPath | public/pathSearcher.js:144-159 | the predecessor chain of `endNode` when it starts at `startNode`, else `[]`; `[]` for a null `endNode` |
| ServerRoute.FindNearestNode | public/pathSearcher.js:124-141 | null iff the graph has no key, otherwise the first key of least distance |
| ServerRoute.LowerIsProgress | public/pathSearcher.js:111-114 | an improved distance decreases the termination measure of the search |
| ServerRoute.SortedFirstEntry | public/pathSearcher.js:97-98 | after the re-sort the first entry has the least distance of the queue |
| ServerRoute.RelaxUpdate | public/pathSearcher.js:111-115 | an improving neighbour keeps the relaxation description of the neighbours so far |
| ServerRoute.PushUpdate | public/pathSearcher.js:114 | the entry pushed for an improved neighbour is the only pushed entry for it, with its new distance |
| ServerRoute.RelaxImproves | public/pathSearcher.js:111-115 | an improving neighbour also makes progress towards termination |
| ServerRoute.RelaxNeighbour | public/pathSearcher.js:107-115 | one iteration of the neighbour loop keeps the relaxation description |
| ServerRoute.RelaxNeighbours | public/pathSearcher.js:106-116 | relaxation: every link from `currentNode` is relaxed; a changed node got `distances[currentNode] + weight` strictly smaller, has `currentNode` as predecessor, and has an entry with its new distance pushed; the queue only grows, by exactly one entry per improved node; an unchanged queue means unchanged distances |
| ServerRoute.ChainInvClosed | public/pathSearcher.js:148-151 | following the predecessor links from any node reaches a null predecessor |
| ServerRoute.ChainWalk | public/pathSearcher.js:146-151 | the predecessor chain of a node of finite distance is a walk from `startNode` of exactly that weight |
| ServerRoute.ShortestChain | public/pathSearcher.js:101-102 | at the end node, the predecessor chain starts at `startNode` and is a walk of least weight |
| ServerRoute.Frontier | public/pathSearcher.js:95-117 | every walk from the start leads through a queued entry of distance at most the walk's weight, or ends at a node whose distance is already that small |
| ServerRoute.Settle | public/pathSearcher.js:97-98 | the node of the least queued entry has its final distance |
| ServerRoute.ExtractKeepsQueue | public/pathSearcher.js:97-98 | after taking the first entry: every entry still bounds its node's distance from above; settled distances stay final; every other node of finite distance has relaxed its links or still has an entry with that distance |
| ServerRoute.ExtractKeepsChain | public/pathSearcher.js:98 | taking a node keeps every predecessor link valid |
| ServerRoute.RelaxChangesUnsettled | public/pathSearcher.js:111-114 | relaxation never improves a node already settled |
| ServerRoute.RelaxKeepsChain | public/pathSearcher.js:111-113 | relaxation keeps every predecessor link a graph link that realises the node's distance |
| ServerRoute.RelaxKeepsQueue | public/pathSearcher.js:106-116 | after relaxation: every entry bounds its node's distance from above; every node of finite distance has relaxed its links or has an entry with that distance; a reached end node keeps an entry |
| ServerRoute.ExtractStep | public/pathSearcher.js:97-103 | the extracted node has its final distance, and extraction keeps the search invariants |
| ServerRoute.RelaxStep | public/pathSearcher.js:106-116 | one relaxation round keeps the search invariants |
| ServerRoute.Initialise | public/pathSearcher.js:82-92 | `startNode` at 0, every other key at Infinity, every predecessor null, the queue one entry `{startNode, 0}` |
| ServerRoute.Search | public/pathSearcher.js:83-120 | `[]` iff `endNode` is unreachable from `startNode`; otherwise a walk between them of least weight; `[startNode]` when they are equal |
| ServerRoute.CalculateShortestPath | public/pathSearcher.js:74-121 | the graph is the one built from the feed; the start and end nodes are the first nearest keys (null on an empty graph, giving `[]`); the path is `[]` iff unreachable, else a walk of least weight |

## Left out

- Distances. The haversine formula (`getDistanceBetweenCoords`) and Leaflet's `distanceTo` are
  floating point. Segment lengths are an abstract `length: (P, P) -> nat`, and click distances an
  abstract real-valued `d`.
- Node keys. The `"lat,lng"` strings, with their parsing and printing through `Number`, are an
  abstract key type. `findNearestNode`'s `node.split(',')` is folded into `d`.
- I/O and asynchrony. Nothing models `fetch`, the Overpass request, Promises, `console`, `alert`,
  or the HTTP server in `server.js`.
- The user interface is not modelled: the Leaflet map, `drawGraph`, the click handler, and the
  filling of the `nodes` and `lines` arrays. `FindClosestPoint` takes those arrays as parameters.
- BrowserGraph.RoadMap.BuildGraph: the browser throws when `data.elements` is missing. The model
  takes a sequence of ways and does not model that error.
- ServerRoute.RelaxNeighbours: `for (let neighbor in graph[currentNode])` visits keys in insertion
  order. The model picks the next neighbour arbitrarily, so it proves the contract for every
  visiting order.
- ServerRoute.ReconstructPath: requires a ghost `rank` under which the predecessor links are
  acyclic. A cyclic predecessor map would make the source loop forever. The search never builds
  one, as `ChainInvClosed` shows.
- BrowserSnap.ProjectPointOnLine: `lineLength` is a parameter; the scan passes it the abstract
  `metres` of the difference vector and (0, 0). Leaflet's great-circle `distanceTo` is not
  modelled, so no contract depends on its value.
- BrowserSnap.FindClosestPoint: on the page, `drawGraph` (public/script.js:120-144) puts every
  point of every polyline into `nodes` too. So whenever a polyline has a segment, a node is
  returned and no projection is. The model takes `nodes` and `lines` as independent parameters.
- BrowserRoute.Dijkstra: requires `start` and `end` to be keys of the graph. In the source, a
  non-key `start` other than `end` just gives `[]`, and a non-key `end`
  makes the path loop at public/script.js:343 run forever: `previous[end]` is `undefined`, and
  `undefined !== null`. The click handler's check at public/script.js:396 is what prevents it.
- Common.SortBy: the model's insertion sort keeps equal keys in queue order, as a stable
  `Array.prototype.sort` does, but no contract states that order.
- Object identity. `findClosestPoint` returns `L.latLng` objects and a plain `[lat, lng]` array
  for an interior projection. The model compares points by value.

## Findings

| source | as written | input that shows it | evidently intended | confidence | as-written member | corrected member |
|---|---|---|---|---|---|---|
| public/script.js:228-237 | `t` divides the scalar product of degree differences by the square of `lineLength`, a great-circle length in metres | the segment from (0, 0) to (0, 1), about 111 km long: projecting its end point (0, 1) gives `t` about 8e-11 instead of 1, so a point near the start, not (0, 1) | `t` = scalar product / squared length in the same degree units, giving the nearest point of the segment | not executed | BrowserSnap.ProjectPointOnLineMissesEnd | BrowserSnap.ProjectOnSegmentIsNearest |
