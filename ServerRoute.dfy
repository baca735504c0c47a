/** The server copy's route search (`calculateShortestPath`,
    `findNearestNode` and `reconstructPath` in public/pathSearcher.js): a
    Dijkstra search whose queue holds `{node, distance}` entries, re-sorted
    on each round, with an entry pushed every time a distance improves. */
module ServerRoute {
  import opened Common
  import opened ServerGraph

  /** `graph[a][b]` exists and is `w`. */
  ghost predicate HasLink<P>(g: Graph<P>, a: P, b: P, w: nat) {
    a in g.adj && b in g.adj[a] && g.adj[a][b] == w
  }

  /** `p` is a walk from `s` to `e` whose steps have the weights `ws`. */
  ghost predicate IsWalk<P>(g: Graph<P>, p: seq<P>, ws: seq<nat>, s: P, e: P) {
    && |p| == |ws| + 1
    && p[0] == s && p[|p| - 1] == e
    && forall i :: 0 <= i < |ws| ==> HasLink(g, p[i], p[i + 1], ws[i])
  }

  ghost predicate Reachable<P(!new)>(g: Graph<P>, s: P, e: P) {
    exists p, ws :: IsWalk(g, p, ws, s, e)
  }

  /** `d` is at most the weight of every walk from `s` to `e`. */
  ghost predicate LowerBound<P(!new)>(g: Graph<P>, s: P, e: P, d: Dist) {
    forall p, ws :: IsWalk(g, p, ws, s, e) ==> AtMost(d, Fin(Sum(ws)))
  }

  /** Following `previousNodes` terminates: the predecessor of a node is a
      key with a rank, lower than the node's own rank when it has one. */
  ghost predicate ChainClosed<P(!new)>(prev: map<P, Option<P>>, rank: map<P, nat>) {
    forall n :: n in prev && prev[n].Some? ==>
      && prev[n].value in prev && prev[n].value in rank
      && (n in rank ==> rank[prev[n].value] < rank[n])
  }

  /** The nodes met following the predecessor links from `n`, in the order
      from the node without predecessor to `n`. */
  function Chain<P(!new)>(prev: map<P, Option<P>>, rank: map<P, nat>, n: P): (c: seq<P>)
    requires ChainClosed(prev, rank) && n in prev
    ensures c != [] && c[|c| - 1] == n
    ensures c[0] in prev && prev[c[0]] == None
    ensures forall i :: 0 < i < |c| ==> c[i] in prev && prev[c[i]] == Some(c[i - 1])
    decreases if n in rank then 0 else 1, if n in rank then rank[n] else 0
  {
    match prev[n]
    case None => [n]
    case Some(p) => Chain(prev, rank, p) + [n]
  }

  /** `reconstructPath(previousNodes, startNode, endNode)`: unshift the
      nodes met from `endNode` until a null predecessor; the result is that
      chain when it begins with `startNode`, and empty otherwise (an empty
      chain, from a null `endNode`, has an undefined first element, which
      differs from every node and from null). */
  method ReconstructPath<P(!new)>(previousNodes: map<P, Option<P>>, startNode: Option<P>, endNode: Option<P>,
                                  ghost rank: map<P, nat>)
    returns (path: seq<P>)
    requires ChainClosed(previousNodes, rank)
    requires endNode.Some? ==> endNode.value in previousNodes
    ensures endNode.None? ==> path == []
    ensures endNode.Some? ==>
              var c := Chain(previousNodes, rank, endNode.value);
              path == if Some(c[0]) == startNode then c else []
    ensures path != [] ==> Some(path[0]) == startNode && Some(path[|path| - 1]) == endNode
  {
    path := [];
    var currentNode := endNode;
    if endNode.None? {
      return;
    }
    ghost var c := Chain(previousNodes, rank, endNode.value);
    while currentNode.Some?
      invariant |path| <= |c| && path == c[|c| - |path|..]
      invariant currentNode == if |path| == |c| then None else Some(c[|c| - |path| - 1])
      decreases |c| - |path|
    {
      path := [currentNode.value] + path;
      currentNode := previousNodes[currentNode.value];
    }
    if path == [] || Some(path[0]) != startNode {
      return [];
    }
  }

  /** `findNearestNode(coords, graph)`: scan the keys in creation order,
      keeping a node only when it is strictly nearer than the best so far;
      null when the graph has no key. */
  method FindNearestNode<C, P>(coords: C, g: Graph<P>, d: (C, P) -> real) returns (nearestNode: Option<P>)
    ensures nearestNode.None? <==> g.order == []
    ensures g.order != [] ==> exists k :: IsFirstNearest(d, coords, g.order, k) && nearestNode == Some(g.order[k])
  {
    nearestNode := None;
    var minDistance: real := 0.0;
    ghost var best := 0;
    for k := 0 to |g.order|
      invariant nearestNode.None? <==> k == 0
      invariant k > 0 ==> IsFirstNearest(d, coords, g.order[..k], best)
                          && nearestNode == Some(g.order[best]) && minDistance == d(coords, g.order[best])
    {
      var node := g.order[k];
      var distance := d(coords, node);
      assert g.order[..k + 1] == g.order[..k] + [node];
      FirstNearestAppend(d, coords, g.order[..k], best, node);
      if nearestNode.None? || distance < minDistance {
        minDistance := distance;
        nearestNode := Some(node);
        best := k;
      }
    }
    assert g.order[..|g.order|] == g.order;
  }

  /** The number of keys of `ks` at distance Infinity. */
  function InfCount<P>(dist: map<P, Dist>, ks: seq<P>): nat {
    if ks == [] then 0
    else InfCount(dist, ks[..|ks| - 1]) + (if ks[|ks| - 1] in dist && dist[ks[|ks| - 1]].Inf? then 1 else 0)
  }

  function FinValue(d: Dist): nat {
    if d.Fin? then d.n else 0
  }

  /** The sum of the finite distances of the keys of `ks`. */
  function FinSum<P>(dist: map<P, Dist>, ks: seq<P>): nat {
    if ks == [] then 0
    else FinSum(dist, ks[..|ks| - 1]) + (if ks[|ks| - 1] in dist then FinValue(dist[ks[|ks| - 1]]) else 0)
  }

  /** `dist'` is below `dist` in the order the search's termination rests
      on: fewer infinite distances, or as many and a smaller finite sum. */
  ghost predicate Progress<P>(dist': map<P, Dist>, dist: map<P, Dist>, ks: seq<P>) {
    || InfCount(dist', ks) < InfCount(dist, ks)
    || (InfCount(dist', ks) == InfCount(dist, ks) && FinSum(dist', ks) < FinSum(dist, ks))
  }

  /** Changing the distance of one key changes both counters by that key's
      share alone. */
  lemma {:induction false} UpdateCounts<P>(dist: map<P, Dist>, ks: seq<P>, k: P, v: Dist)
    requires Distinct(ks) && k in ks && k in dist
    ensures InfCount(dist[k := v], ks) as int
            == InfCount(dist, ks) - (if dist[k].Inf? then 1 else 0) + (if v.Inf? then 1 else 0)
    ensures FinSum(dist[k := v], ks) as int == FinSum(dist, ks) - FinValue(dist[k]) + FinValue(v)
  {
    var pre, last := ks[..|ks| - 1], ks[|ks| - 1];
    if last == k {
      assert k !in pre;
      UnchangedCounts(dist, pre, k, v);
    } else {
      assert k in pre;
      UpdateCounts(dist, pre, k, v);
    }
  }

  lemma {:induction false} UnchangedCounts<P>(dist: map<P, Dist>, ks: seq<P>, k: P, v: Dist)
    requires k !in ks
    ensures InfCount(dist[k := v], ks) == InfCount(dist, ks)
    ensures FinSum(dist[k := v], ks) == FinSum(dist, ks)
  {
    if ks != [] {
      UnchangedCounts(dist, ks[..|ks| - 1], k, v);
    }
  }

  /** Lowering one distance is progress. */
  lemma LowerIsProgress<P>(dist: map<P, Dist>, ks: seq<P>, k: P, v: Dist)
    requires Distinct(ks) && k in ks && k in dist && Below(v, dist[k])
    ensures Progress(dist[k := v], dist, ks)
  {
    UpdateCounts(dist, ks, k, v);
  }

  /** A queue entry `{ node, distance }`. */
  datatype Entry<P> = Entry(node: P, distance: nat)

  /** The sort key of `queue.sort((a, b) => a.distance - b.distance)`. */
  function ByEntryDistance<P>(e: Entry<P>): Dist {
    Fin(e.distance)
  }

  /** The entry `queue.shift()` takes after the sort has the least distance
      in the queue. */
  lemma SortedFirstEntry<P>(queue: seq<Entry<P>>)
    requires queue != []
    ensures var s := SortBy(queue, ByEntryDistance);
            && s != [] && multiset(s) == multiset(queue) && |s| == |queue|
            && forall j :: 0 <= j < |s| ==> s[0].distance <= s[j].distance
  {
    var s := SortBy(queue, ByEntryDistance);
    SortBySorted(queue, ByEntryDistance);
    assert |s| == |multiset(s)| == |queue|;
    forall j | 0 < j < |s| ensures s[0].distance <= s[j].distance {
      assert AtMost(ByEntryDistance(s[0]), ByEntryDistance(s[j]));
    }
  }

  /** Every link out of `y` towards a key has been relaxed. */
  ghost predicate Relaxed<P>(g: Graph<P>, dist: map<P, Dist>, y: P)
    requires y in g.adj && y in dist
  {
    forall b :: b in g.adj[y] && b in dist ==> AtMost(dist[b], Plus(dist[y], g.adj[y][b]))
  }

  /** What relaxing the links `adj` of `x` towards the neighbours `done`
      does: no distance grows, `x`'s stays; every link towards a key of
      `done` is relaxed; a node whose distance changed is in `done`, got a
      strictly smaller distance through its link from `x`, has `x` as
      predecessor and an entry with its new distance; every other node
      keeps its predecessor; the queue only grows, by one entry for each
      improved node, carrying its new distance. */
  ghost predicate RelaxedAround<P>(adj: map<P, nat>, x: P, done: set<P>,
                                   dist: map<P, Dist>, prev: map<P, Option<P>>,
                                   queue: seq<Entry<P>>, via: map<P, nat>,
                                   dist': map<P, Dist>, prev': map<P, Option<P>>,
                                   queue': seq<Entry<P>>, via': map<P, nat>) {
    && DistancesAround(adj, x, done, dist, prev, via, dist', prev', via')
    && QueueAround(done, dist, queue, dist', queue')
  }

  /** The distance, predecessor and edge-length part of `RelaxedAround`. */
  ghost predicate DistancesAround<P>(adj: map<P, nat>, x: P, done: set<P>,
                                     dist: map<P, Dist>, prev: map<P, Option<P>>, via: map<P, nat>,
                                     dist': map<P, Dist>, prev': map<P, Option<P>>, via': map<P, nat>) {
    && x in dist && dist'.Keys == dist.Keys && prev'.Keys == prev.Keys && prev.Keys == dist.Keys
    && done <= adj.Keys && dist'[x] == dist[x]
    && (forall n :: n in dist ==> AtMost(dist'[n], dist[n]))
    && (forall b :: b in done && b in dist ==> AtMost(dist'[b], Plus(dist[x], adj[b])))
    && (forall n :: n in dist && dist'[n] != dist[n] ==>
          && n in done && Below(dist'[n], dist[n]) && dist'[n] == Plus(dist[x], adj[n])
          && prev'[n] == Some(x) && n in via' && via'[n] == adj[n])
    && (forall n :: n in dist && dist'[n] == dist[n] ==>
          prev'[n] == prev[n] && (n in via ==> n in via' && via'[n] == via[n]))
  }

  /** The queue part of `RelaxedAround`: the entries pushed are those of
      the improved neighbours, one each, with its new distance. */
  ghost predicate QueueAround<P>(done: set<P>, dist: map<P, Dist>, queue: seq<Entry<P>>,
                                 dist': map<P, Dist>, queue': seq<Entry<P>>) {
    && dist'.Keys == dist.Keys
    && |queue| <= |queue'| && queue'[..|queue|] == queue
    && (forall n :: n in dist && dist'[n] != dist[n] ==>
          dist'[n].Fin? && exists i :: |queue| <= i < |queue'| && queue'[i] == Entry(n, dist'[n].n))
    && (forall i :: |queue| <= i < |queue'| ==>
          && queue'[i].node in done && queue'[i].node in dist
          && dist'[queue'[i].node] != dist[queue'[i].node] && dist'[queue'[i].node] == Fin(queue'[i].distance))
    && (forall i, j :: |queue| <= i < j < |queue'| ==> queue'[i].node != queue'[j].node)
  }

  /** A neighbour whose distance is not improved is relaxed already. */
  lemma RelaxSkip<P>(adj: map<P, nat>, x: P, done: set<P>, nb: P,
                     dist: map<P, Dist>, prev: map<P, Option<P>>, queue: seq<Entry<P>>, via: map<P, nat>,
                     dist': map<P, Dist>, prev': map<P, Option<P>>, queue': seq<Entry<P>>, via': map<P, nat>)
    requires RelaxedAround(adj, x, done, dist, prev, queue, via, dist', prev', queue', via')
    requires nb in adj && !(nb in dist' && Below(Plus(dist'[x], adj[nb]), dist'[nb]))
    ensures RelaxedAround(adj, x, done + {nb}, dist, prev, queue, via, dist', prev', queue', via')
  {
  }

  /** Improving a neighbour keeps the description. */
  lemma RelaxUpdate<P>(adj: map<P, nat>, x: P, done: set<P>, nb: P,
                       dist: map<P, Dist>, prev: map<P, Option<P>>, queue: seq<Entry<P>>, via: map<P, nat>,
                       dist': map<P, Dist>, prev': map<P, Option<P>>, queue': seq<Entry<P>>, via': map<P, nat>,
                       t: Dist)
    requires RelaxedAround(adj, x, done, dist, prev, queue, via, dist', prev', queue', via')
    requires nb in adj && nb !in done && nb in dist' && t == Plus(dist'[x], adj[nb]) && Below(t, dist'[nb])
    ensures RelaxedAround(adj, x, done + {nb}, dist, prev, queue, via,
                          dist'[nb := t], prev'[nb := Some(x)], queue' + [Entry(nb, t.n)], via'[nb := adj[nb]])
  {
    assert dist'[nb] == dist[nb];
    PushUpdate(done, nb, dist, queue, dist', queue', t);
  }

  /** The queue part of `RelaxUpdate`: the entry pushed for a neighbour not
      improved before is the only one for it. */
  lemma PushUpdate<P>(done: set<P>, nb: P, dist: map<P, Dist>, queue: seq<Entry<P>>,
                      dist': map<P, Dist>, queue': seq<Entry<P>>, t: Dist)
    requires QueueAround(done, dist, queue, dist', queue')
    requires nb !in done && nb in dist' && dist'[nb] == dist[nb] && Below(t, dist'[nb])
    ensures QueueAround(done + {nb}, dist, queue, dist'[nb := t], queue' + [Entry(nb, t.n)])
  {
    var dist'', queue'' := dist'[nb := t], queue' + [Entry(nb, t.n)];
    assert queue''[..|queue|] == queue by {
      assert queue''[..|queue'|] == queue';
    }
    forall i | |queue| <= i < |queue''|
      ensures queue''[i].node in done + {nb} && queue''[i].node in dist
      ensures dist''[queue''[i].node] != dist[queue''[i].node]
      ensures dist''[queue''[i].node] == Fin(queue''[i].distance)
    {
      if i < |queue'| {
        assert queue''[i] == queue'[i];
      }
    }
    forall n | n in dist && dist''[n] != dist[n]
      ensures exists i :: |queue| <= i < |queue''| && queue''[i] == Entry(n, dist''[n].n)
    {
      if n == nb {
        assert queue''[|queue'|] == Entry(n, dist''[n].n);
      } else {
        var i :| |queue| <= i < |queue'| && queue'[i] == Entry(n, dist'[n].n);
        assert queue''[i] == queue'[i];
      }
    }
    forall i, j | |queue| <= i < j < |queue''|
      ensures queue''[i].node != queue''[j].node
    {
      assert queue''[i] == queue'[i];
      if j < |queue'| {
        assert queue''[j] == queue'[j];
      }
    }
  }

  /** Improving a neighbour keeps the description and makes progress
      over the distances the round started from. */
  lemma RelaxImproves<P>(adj: map<P, nat>, x: P, done: set<P>, nb: P, ks: seq<P>,
                         dist: map<P, Dist>, prev: map<P, Option<P>>, queue: seq<Entry<P>>, via: map<P, nat>,
                         dist': map<P, Dist>, prev': map<P, Option<P>>, queue': seq<Entry<P>>, via': map<P, nat>)
    requires RelaxedAround(adj, x, done, dist, prev, queue, via, dist', prev', queue', via')
    requires Distinct(ks) && (set k | k in ks) == dist.Keys
    requires Advanced(dist', dist, queue', queue, ks)
    requires nb in adj && nb !in done && nb in dist' && Below(Plus(dist'[x], adj[nb]), dist'[nb])
    ensures var t := Plus(dist'[x], adj[nb]);
            && RelaxedAround(adj, x, done + {nb}, dist, prev, queue, via,
                             dist'[nb := t], prev'[nb := Some(x)], queue' + [Entry(nb, t.n)], via'[nb := adj[nb]])
            && Advanced(dist'[nb := t], dist, queue' + [Entry(nb, t.n)], queue, ks)
  {
    var t := Plus(dist'[x], adj[nb]);
    assert nb in ks;
    LowerIsProgress(dist', ks, nb, t);
    RelaxUpdate(adj, x, done, nb, dist, prev, queue, via, dist', prev', queue', via', t);
  }

  /** The loop `for (let neighbor in graph[currentNode])`: a neighbour for
      which `distances[currentNode] + weight` is smaller than its distance
      gets that distance and `currentNode` as predecessor, and an entry is
      pushed for it. A neighbour that is no key has an undefined distance,
      against which no comparison holds. The result is also progress
      towards termination whenever an entry was pushed. */
  method RelaxNeighbours<P>(adj: map<P, nat>, x: P, dist: map<P, Dist>, prev: map<P, Option<P>>,
                            queue: seq<Entry<P>>, ghost via: map<P, nat>, ghost ks: seq<P>)
    returns (dist': map<P, Dist>, prev': map<P, Option<P>>, queue': seq<Entry<P>>, ghost via': map<P, nat>)
    requires x in dist && dist.Keys == prev.Keys
    requires Distinct(ks) && (set k | k in ks) == dist.Keys
    ensures RelaxedAround(adj, x, adj.Keys, dist, prev, queue, via, dist', prev', queue', via')
    ensures |queue'| == |queue| ==> dist' == dist
    ensures |queue'| > |queue| ==> Progress(dist', dist, ks)
  {
    dist', prev', queue', via' := dist, prev, queue, via;
    var todo := adj.Keys;
    ghost var done: set<P> := {};
    assert queue'[..|queue|] == queue;
    while todo != {}
      invariant done !! todo && done + todo == adj.Keys
      invariant RelaxedAround(adj, x, done, dist, prev, queue, via, dist', prev', queue', via')
      invariant Advanced(dist', dist, queue', queue, ks)
      decreases |todo|
    {
      var neighbor :| neighbor in todo;
      MoveOne(done, todo, adj.Keys, neighbor);
      todo := todo - {neighbor};
      dist', prev', queue', via' := RelaxNeighbour(adj, x, neighbor, dist', prev', queue', via', done, dist, prev, queue, via, ks);
      done := done + {neighbor};
    }
    assert done == adj.Keys;
  }

  /** Moving one element from `todo` to `done` keeps them a partition of
      `all`, and shrinks `todo`. */
  lemma MoveOne<P>(done: set<P>, todo: set<P>, all: set<P>, n: P)
    requires done !! todo && done + todo == all && n in todo
    ensures (done + {n}) !! (todo - {n}) && (done + {n}) + (todo - {n}) == all
    ensures |todo - {n}| < |todo|
  {
  }

  /** One iteration of the loop over the neighbours of `currentNode`. */
  method RelaxNeighbour<P>(adj: map<P, nat>, x: P, neighbor: P,
                           dist': map<P, Dist>, prev': map<P, Option<P>>, queue': seq<Entry<P>>, ghost via': map<P, nat>,
                           ghost done: set<P>, ghost dist: map<P, Dist>, ghost prev: map<P, Option<P>>,
                           ghost queue: seq<Entry<P>>, ghost via: map<P, nat>, ghost ks: seq<P>)
    returns (dist'': map<P, Dist>, prev'': map<P, Option<P>>, queue'': seq<Entry<P>>, ghost via'': map<P, nat>)
    requires neighbor in adj && neighbor !in done
    requires Distinct(ks) && (set k | k in ks) == dist.Keys
    requires RelaxedAround(adj, x, done, dist, prev, queue, via, dist', prev', queue', via')
    requires Advanced(dist', dist, queue', queue, ks)
    ensures RelaxedAround(adj, x, done + {neighbor}, dist, prev, queue, via, dist'', prev'', queue'', via'')
    ensures Advanced(dist'', dist, queue'', queue, ks)
  {
    var distanceToNeighbor := adj[neighbor];
    var totalDistance := Plus(dist'[x], distanceToNeighbor);
    if neighbor in dist' && Below(totalDistance, dist'[neighbor]) {
      RelaxImproves(adj, x, done, neighbor, ks, dist, prev, queue, via, dist', prev', queue', via');
      dist'' := dist'[neighbor := totalDistance];
      prev'' := prev'[neighbor := Some(x)];
      queue'' := queue' + [Entry(neighbor, totalDistance.n)];
      via'' := via'[neighbor := distanceToNeighbor];
    } else {
      RelaxSkip(adj, x, done, neighbor, dist, prev, queue, via, dist', prev', queue', via');
      dist'', prev'', queue'', via'' := dist', prev', queue', via';
    }
  }

  /** An unchanged queue means unchanged distances, a longer one progress. */
  ghost predicate Advanced<P>(dist': map<P, Dist>, dist: map<P, Dist>, queue': seq<Entry<P>>, queue: seq<Entry<P>>, ks: seq<P>) {
    && (|queue'| == |queue| ==> dist' == dist)
    && (|queue'| > |queue| ==> Progress(dist', dist, ks))
  }

  /** The predecessor `prev[n]` of `n` is settled, links to `n`, and `n`'s
      distance was reached through that link; on a settled `n` it was
      settled earlier. */
  ghost predicate PrevLink<P>(g: Graph<P>, dist: map<P, Dist>, prev: map<P, Option<P>>,
                              settled: set<P>, via: map<P, nat>, rank: map<P, nat>, n: P)
    requires n in prev && prev[n].Some? && n in dist
  {
    var p := prev[n].value;
    && p in settled && p in dist && p in rank
    && n in via && HasLink(g, p, n, via[n])
    && dist[n].Fin? && dist[n] == Plus(dist[p], via[n])
    && (n in settled ==> n in rank && rank[p] < rank[n])
  }

  /** The predecessor links of a search state: `startNode` is at distance 0
      with no predecessor, every other node of finite distance has one, and
      every link satisfies `PrevLink`. The settled nodes are those taken
      from the queue so far, each with the round it was first taken in. */
  ghost predicate ChainInv<P>(g: Graph<P>, start: P, dist: map<P, Dist>, prev: map<P, Option<P>>,
                              settled: set<P>, via: map<P, nat>, rank: map<P, nat>) {
    && dist.Keys == g.adj.Keys && prev.Keys == g.adj.Keys && start in g.adj
    && dist[start] == Fin(0) && prev[start] == None
    && settled <= g.adj.Keys && rank.Keys == settled
    && (forall n :: n in prev && prev[n].Some? ==> PrevLink(g, dist, prev, settled, via, rank, n))
    && (forall n :: n in dist && dist[n].Fin? && n != start ==> prev[n].Some?)
  }

  /** No entry is below its node's distance; ranks are below `steps`; a
      settled node has its final distance. */
  ghost predicate QueueInv<P(!new)>(g: Graph<P>, start: P, queue: seq<Entry<P>>, dist: map<P, Dist>,
                                    settled: set<P>, rank: map<P, nat>, steps: nat) {
    && (forall e :: e in queue ==> e.node in dist && AtMost(dist[e.node], Fin(e.distance)))
    && (forall x :: x in rank ==> rank[x] < steps)
    && (forall x :: x in settled && x in dist ==> LowerBound(g, start, x, dist[x]))
  }

  /** Every node of finite distance, but those of `except`, has relaxed its
      links or still has an entry with its distance. */
  ghost predicate Pending<P>(g: Graph<P>, dist: map<P, Dist>, queue: seq<Entry<P>>, except: set<P>) {
    forall y :: y in dist && y in g.adj && dist[y].Fin? && y !in except ==>
      Relaxed(g, dist, y) || Entry(y, dist[y].n) in queue
  }

  /** The end node, once reached, has an entry with its distance. */
  ghost predicate EndQueued<P>(dist: map<P, Dist>, queue: seq<Entry<P>>, end: P) {
    end in dist && dist[end].Fin? ==> Entry(end, dist[end].n) in queue
  }

  lemma ChainInvClosed<P(!new)>(g: Graph<P>, start: P, dist: map<P, Dist>, prev: map<P, Option<P>>,
                                settled: set<P>, via: map<P, nat>, rank: map<P, nat>)
    requires ChainInv(g, start, dist, prev, settled, via, rank)
    ensures ChainClosed(prev, rank)
  {
    forall n | n in prev && prev[n].Some?
      ensures prev[n].value in prev && prev[n].value in rank
      ensures n in rank ==> rank[prev[n].value] < rank[n]
    {
      assert PrevLink(g, dist, prev, settled, via, rank, n);
    }
  }

  /** The predecessor chain of a node of finite distance is a walk from
      `startNode` whose weight is that distance. */
  lemma {:induction false} ChainWalk<P(!new)>(g: Graph<P>, start: P, dist: map<P, Dist>, prev: map<P, Option<P>>,
                                              settled: set<P>, via: map<P, nat>, rank: map<P, nat>, y: P)
    returns (ws: seq<nat>)
    requires ChainInv(g, start, dist, prev, settled, via, rank) && ChainClosed(prev, rank)
    requires y in dist && dist[y].Fin?
    ensures IsWalk(g, Chain(prev, rank, y), ws, start, y) && dist[y] == Fin(Sum(ws))
    decreases if y in rank then 0 else 1, if y in rank then rank[y] else 0
  {
    match prev[y]
    case None =>
      ws := [];
    case Some(p) =>
      assert PrevLink(g, dist, prev, settled, via, rank, y);
      var ws' := ChainWalk(g, start, dist, prev, settled, via, rank, p);
      ws := ws' + [via[y]];
      assert ws[..|ws'|] == ws';
      var c', c := Chain(prev, rank, p), Chain(prev, rank, y);
      assert c == c' + [y];
      forall i | 0 <= i < |ws| ensures HasLink(g, c[i], c[i + 1], ws[i]) {
        if i < |ws'| {
          assert c[i] == c'[i] && c[i + 1] == c'[i + 1];
        }
      }
  }

  /** Once `endNode` has its final distance, its predecessor chain starts at
      `startNode` and is a walk of least weight. */
  lemma ShortestChain<P(!new)>(g: Graph<P>, start: P, end: P, dist: map<P, Dist>, prev: map<P, Option<P>>,
                               settled: set<P>, via: map<P, nat>, rank: map<P, nat>)
    returns (ws: seq<nat>)
    requires ChainInv(g, start, dist, prev, settled, via, rank)
    requires end in dist && dist[end].Fin? && LowerBound(g, start, end, dist[end])
    ensures ChainClosed(prev, rank)
    ensures var c := Chain(prev, rank, end);
            && c[0] == start && IsWalk(g, c, ws, start, end)
            && LowerBound(g, start, end, Fin(Sum(ws)))
            && (start == end ==> c == [end])
  {
    ChainInvClosed(g, start, dist, prev, settled, via, rank);
    ws := ChainWalk(g, start, dist, prev, settled, via, rank, end);
  }

  /** A walk from `startNode` either meets an entry no heavier than the
      walk, or ends at a node whose distance is at most the walk's weight. */
  lemma {:induction false} Frontier<P(!new)>(g: Graph<P>, start: P, dist: map<P, Dist>, queue: seq<Entry<P>>,
                                             p: seq<P>, ws: seq<nat>)
    returns (found: bool, e: Entry<P>)
    requires dist.Keys == g.adj.Keys && start in dist && dist[start] == Fin(0)
    requires Pending(g, dist, queue, {})
    requires |p| == |ws| + 1 && p[0] == start && p[|p| - 1] in dist
    requires forall i :: 0 <= i < |ws| ==> HasLink(g, p[i], p[i + 1], ws[i])
    ensures found ==> e in queue && e.distance <= Sum(ws)
    ensures !found ==> AtMost(dist[p[|p| - 1]], Fin(Sum(ws)))
    decreases |ws|
  {
    if ws == [] {
      found, e := false, Entry(start, 0);
    } else {
      var n := |ws|;
      var v, w := p[n - 1], ws[n - 1];
      assert HasLink(g, v, p[n], w);
      found, e := Frontier(g, start, dist, queue, p[..n], ws[..n - 1]);
      if !found {
        if Entry(v, dist[v].n) in queue {
          found, e := true, Entry(v, dist[v].n);
        } else {
          assert Relaxed(g, dist, v);
        }
      }
    }
  }

  /** The entry taken first after the sort gives its node its final
      distance. */
  lemma Settle<P(!new)>(g: Graph<P>, start: P, dist: map<P, Dist>, queue: seq<Entry<P>>, sorted: seq<Entry<P>>)
    requires dist.Keys == g.adj.Keys && start in dist && dist[start] == Fin(0)
    requires Pending(g, dist, queue, {})
    requires forall e :: e in queue ==> e.node in dist && AtMost(dist[e.node], Fin(e.distance))
    requires sorted != [] && multiset(sorted) == multiset(queue)
    requires forall j :: 0 <= j < |sorted| ==> sorted[0].distance <= sorted[j].distance
    ensures sorted[0].node in dist && AtMost(dist[sorted[0].node], Fin(sorted[0].distance))
    ensures LowerBound(g, start, sorted[0].node, dist[sorted[0].node])
  {
    var x := sorted[0].node;
    assert sorted[0] in multiset(queue);
    forall p, ws | IsWalk(g, p, ws, start, x)
      ensures AtMost(dist[x], Fin(Sum(ws)))
    {
      var found, e := Frontier(g, start, dist, queue, p, ws);
      if found {
        assert e in multiset(sorted);
      }
    }
  }

  /** Taking the first entry of the sorted queue keeps the queue facts; its
      node, now settled, is the one node still to relax its links. */
  lemma ExtractKeepsQueue<P(!new)>(g: Graph<P>, start: P, end: P, queue: seq<Entry<P>>, sorted: seq<Entry<P>>,
                                   dist: map<P, Dist>, settled: set<P>, rank: map<P, nat>, steps: nat)
    requires QueueInv(g, start, queue, dist, settled, rank, steps)
    requires Pending(g, dist, queue, {}) && EndQueued(dist, queue, end)
    requires sorted != [] && multiset(sorted) == multiset(queue) && sorted[0].node != end
    requires sorted[0].node in dist && LowerBound(g, start, sorted[0].node, dist[sorted[0].node])
    ensures var x := sorted[0].node;
            QueueInv(g, start, sorted[1..], dist, settled + {x}, if x in settled then rank else rank[x := steps], steps + 1)
    ensures Pending(g, dist, sorted[1..], {sorted[0].node}) && EndQueued(dist, sorted[1..], end)
  {
    var x, rest := sorted[0].node, sorted[1..];
    assert sorted == [sorted[0]] + rest;
    assert multiset(sorted) == multiset{sorted[0]} + multiset(rest);
    forall e | e in rest ensures e in queue {
      assert e in multiset(queue);
    }
    forall e | e in queue && e.node != x ensures e in rest {
      assert e in multiset(sorted) && e != sorted[0];
      assert e in multiset(rest);
    }
  }

  /** Taking a node keeps the predecessor links; a node taken for the first
      time gets the next rank. */
  lemma ExtractKeepsChain<P>(g: Graph<P>, start: P, dist: map<P, Dist>, prev: map<P, Option<P>>,
                             settled: set<P>, via: map<P, nat>, rank: map<P, nat>, steps: nat, x: P)
    requires ChainInv(g, start, dist, prev, settled, via, rank) && x in g.adj
    requires forall y :: y in rank ==> rank[y] < steps
    ensures ChainInv(g, start, dist, prev, settled + {x}, via, if x in settled then rank else rank[x := steps])
  {
    var settled', rank' := settled + {x}, if x in settled then rank else rank[x := steps];
    forall n | n in prev && prev[n].Some?
      ensures PrevLink(g, dist, prev, settled', via, rank', n)
    {
      assert PrevLink(g, dist, prev, settled, via, rank, n);
    }
  }

  /** Relaxing the links of a settled node never changes a settled node:
      the improved distance is the weight of a walk, which a settled node's
      final distance does not exceed. */
  lemma RelaxChangesUnsettled<P(!new)>(g: Graph<P>, start: P, x: P, settled: set<P>, c: seq<P>, ws: seq<nat>,
                                       dist: map<P, Dist>, prev: map<P, Option<P>>, queue: seq<Entry<P>>, via: map<P, nat>,
                                       dist': map<P, Dist>, prev': map<P, Option<P>>, queue': seq<Entry<P>>, via': map<P, nat>)
    requires forall y :: y in settled && y in dist ==> LowerBound(g, start, y, dist[y])
    requires x in g.adj && IsWalk(g, c, ws, start, x) && x in dist && dist[x] == Fin(Sum(ws))
    requires RelaxedAround(g.adj[x], x, g.adj[x].Keys, dist, prev, queue, via, dist', prev', queue', via')
    ensures forall n :: n in dist && dist'[n] != dist[n] ==> n !in settled
  {
    forall n | n in dist && dist'[n] != dist[n] ensures n !in settled {
      WalkExtend(g, c, ws, start, x, n, g.adj[x][n]);
      assert n in settled ==> AtMost(dist[n], Fin(Sum(ws + [g.adj[x][n]])));
    }
  }

  /** A walk followed by one more link is a walk, one link heavier. */
  lemma WalkExtend<P>(g: Graph<P>, p: seq<P>, ws: seq<nat>, s: P, x: P, n: P, w: nat)
    requires IsWalk(g, p, ws, s, x) && HasLink(g, x, n, w)
    ensures IsWalk(g, p + [n], ws + [w], s, n) && Sum(ws + [w]) == Sum(ws) + w
  {
    var p', ws' := p + [n], ws + [w];
    assert ws'[..|ws|] == ws;
    forall i | 0 <= i < |ws'| ensures HasLink(g, p'[i], p'[i + 1], ws'[i]) {
      if i < |ws| {
        assert p'[i] == p[i] && p'[i + 1] == p[i + 1];
      }
    }
  }

  /** Relaxing keeps the predecessor links. */
  lemma RelaxKeepsChain<P>(g: Graph<P>, start: P, x: P, settled: set<P>, rank: map<P, nat>,
                           dist: map<P, Dist>, prev: map<P, Option<P>>, queue: seq<Entry<P>>, via: map<P, nat>,
                           dist': map<P, Dist>, prev': map<P, Option<P>>, queue': seq<Entry<P>>, via': map<P, nat>)
    requires ChainInv(g, start, dist, prev, settled, via, rank) && x in settled
    requires RelaxedAround(g.adj[x], x, g.adj[x].Keys, dist, prev, queue, via, dist', prev', queue', via')
    requires forall n :: n in dist && dist'[n] != dist[n] ==> n !in settled
    ensures ChainInv(g, start, dist', prev', settled, via', rank)
  {
    forall n | n in prev' && prev'[n].Some?
      ensures PrevLink(g, dist', prev', settled, via', rank, n)
    {
      if dist'[n] == dist[n] {
        assert PrevLink(g, dist, prev, settled, via, rank, n);
      }
    }
  }

  /** Relaxing keeps the queue facts, and leaves every node of finite
      distance relaxed or with an entry. */
  lemma RelaxKeepsQueue<P(!new)>(g: Graph<P>, start: P, end: P, x: P, settled: set<P>, rank: map<P, nat>, steps: nat,
                                 dist: map<P, Dist>, prev: map<P, Option<P>>, queue: seq<Entry<P>>, via: map<P, nat>,
                                 dist': map<P, Dist>, prev': map<P, Option<P>>, queue': seq<Entry<P>>, via': map<P, nat>)
    requires QueueInv(g, start, queue, dist, settled, rank, steps)
    requires Pending(g, dist, queue, {x}) && EndQueued(dist, queue, end)
    requires x in g.adj && dist.Keys == g.adj.Keys
    requires RelaxedAround(g.adj[x], x, g.adj[x].Keys, dist, prev, queue, via, dist', prev', queue', via')
    requires forall n :: n in dist && dist'[n] != dist[n] ==> n !in settled
    ensures QueueInv(g, start, queue', dist', settled, rank, steps)
    ensures Pending(g, dist', queue', {}) && EndQueued(dist', queue', end)
  {
    forall e | e in queue ensures e in queue' {
      var i :| 0 <= i < |queue| && queue[i] == e;
      assert queue'[..|queue|][i] == e;
    }
    forall e | e in queue' ensures e.node in dist' && AtMost(dist'[e.node], Fin(e.distance)) {
      var i :| 0 <= i < |queue'| && queue'[i] == e;
      if i < |queue| {
        assert queue'[..|queue|][i] == e;
      }
    }
    forall y | y in dist' && y in g.adj && dist'[y].Fin?
      ensures Relaxed(g, dist', y) || Entry(y, dist'[y].n) in queue'
    {
      if dist'[y] == dist[y] && y != x {
        if Relaxed(g, dist, y) {
          assert Relaxed(g, dist', y);
        }
      }
    }
  }

  /** The initialisation: `startNode` at distance 0 with an entry; every key
      in creation order gets a null predecessor and, but for `startNode`,
      distance Infinity. */
  method Initialise<P(==)>(graph: Graph<P>, startNode: P)
    returns (distances: map<P, Dist>, previousNodes: map<P, Option<P>>, queue: seq<Entry<P>>)
    ensures distances.Keys == (set k | k in graph.order) + {startNode}
    ensures previousNodes.Keys == set k | k in graph.order
    ensures forall x :: x in distances ==> distances[x] == if x == startNode then Fin(0) else Inf
    ensures forall x :: x in previousNodes ==> previousNodes[x] == None
    ensures queue == [Entry(startNode, 0)]
  {
    distances := map[startNode := Fin(0)];
    previousNodes := map[];
    queue := [Entry(startNode, 0)];
    for k := 0 to |graph.order|
      invariant distances.Keys == (set x | x in graph.order[..k]) + {startNode}
      invariant previousNodes.Keys == set x | x in graph.order[..k]
      invariant forall x :: x in distances ==> distances[x] == if x == startNode then Fin(0) else Inf
      invariant forall x :: x in previousNodes ==> previousNodes[x] == None
    {
      var node := graph.order[k];
      if node != startNode {
        distances := distances[node := Inf];
      }
      previousNodes := previousNodes[node := None];
      assert graph.order[..k + 1] == graph.order[..k] + [node];
    }
    assert graph.order[..|graph.order|] == graph.order;
  }

  /** One extraction: the first entry of the sorted queue gives its node
      its final distance; unless that node is `endNode`, settling it keeps
      the invariants, and its predecessor chain is a walk of that weight. */
  lemma ExtractStep<P(!new)>(g: Graph<P>, start: P, end: P, queue: seq<Entry<P>>, dist: map<P, Dist>,
                             prev: map<P, Option<P>>, settled: set<P>, via: map<P, nat>, rank: map<P, nat>,
                             steps: nat)
    returns (c: seq<P>, cws: seq<nat>)
    requires ChainInv(g, start, dist, prev, settled, via, rank)
    requires QueueInv(g, start, queue, dist, settled, rank, steps)
    requires Pending(g, dist, queue, {}) && EndQueued(dist, queue, end)
    requires queue != []
    ensures var sorted := SortBy(queue, ByEntryDistance);
            && sorted != [] && |sorted| == |queue|
            && sorted[0].node in g.adj && sorted[0].node in dist && dist[sorted[0].node].Fin?
            && LowerBound(g, start, sorted[0].node, dist[sorted[0].node])
    ensures var sorted := SortBy(queue, ByEntryDistance);
            var x := sorted[0].node;
            var settled', rank' := settled + {x}, if x in settled then rank else rank[x := steps];
            x != end ==>
              && ChainInv(g, start, dist, prev, settled', via, rank')
              && QueueInv(g, start, sorted[1..], dist, settled', rank', steps + 1)
              && Pending(g, dist, sorted[1..], {x}) && EndQueued(dist, sorted[1..], end)
              && IsWalk(g, c, cws, start, x) && dist[x] == Fin(Sum(cws))
  {
    SortedFirstEntry(queue);
    var sorted := SortBy(queue, ByEntryDistance);
    Settle(g, start, dist, queue, sorted);
    var x := sorted[0].node;
    c, cws := [], [];
    if x != end {
      ExtractKeepsQueue(g, start, end, queue, sorted, dist, settled, rank, steps);
      ExtractKeepsChain(g, start, dist, prev, settled, via, rank, steps, x);
      var settled', rank' := settled + {x}, if x in settled then rank else rank[x := steps];
      ChainInvClosed(g, start, dist, prev, settled', via, rank');
      cws := ChainWalk(g, start, dist, prev, settled', via, rank', x);
      c := Chain(prev, rank', x);
    }
  }

  /** One relaxation round from the node just settled keeps the invariants. */
  lemma RelaxStep<P(!new)>(g: Graph<P>, start: P, end: P, x: P, settled: set<P>, rank: map<P, nat>, steps: nat,
                           c: seq<P>, cws: seq<nat>,
                           dist: map<P, Dist>, prev: map<P, Option<P>>, queue: seq<Entry<P>>, via: map<P, nat>,
                           dist': map<P, Dist>, prev': map<P, Option<P>>, queue': seq<Entry<P>>, via': map<P, nat>)
    requires ChainInv(g, start, dist, prev, settled, via, rank)
    requires QueueInv(g, start, queue, dist, settled, rank, steps)
    requires Pending(g, dist, queue, {x}) && EndQueued(dist, queue, end)
    requires x in settled && x in g.adj && IsWalk(g, c, cws, start, x) && dist[x] == Fin(Sum(cws))
    requires RelaxedAround(g.adj[x], x, g.adj[x].Keys, dist, prev, queue, via, dist', prev', queue', via')
    ensures ChainInv(g, start, dist', prev', settled, via', rank)
    ensures QueueInv(g, start, queue', dist', settled, rank, steps)
    ensures Pending(g, dist', queue', {}) && EndQueued(dist', queue', end)
  {
    RelaxChangesUnsettled(g, start, x, settled, c, cws, dist, prev, queue, via, dist', prev', queue', via');
    RelaxKeepsChain(g, start, x, settled, rank, dist, prev, queue, via, dist', prev', queue', via');
    RelaxKeepsQueue(g, start, end, x, settled, rank, steps, dist, prev, queue, via, dist', prev', queue', via');
  }

  /** The search loop of `calculateShortestPath` from `startNode` to
      `endNode`, two keys of the graph. The result is empty exactly when no
      walk joins them; otherwise it is a walk from `startNode` to `endNode`
      of least total weight. */
  method Search<P(==, !new)>(graph: Graph<P>, startNode: P, endNode: P) returns (path: seq<P>, ghost ws: seq<nat>)
    requires startNode in graph.adj && endNode in graph.adj
    requires Distinct(graph.order) && (set k | k in graph.order) == graph.adj.Keys
    ensures path == [] <==> !Reachable(graph, startNode, endNode)
    ensures path != [] ==> IsWalk(graph, path, ws, startNode, endNode)
                           && LowerBound(graph, startNode, endNode, Fin(Sum(ws)))
    ensures startNode == endNode ==> path == [startNode]
  {
    var distances, previousNodes, queue := Initialise(graph, startNode);
    ghost var settled: set<P> := {};
    ghost var rank: map<P, nat> := map[];
    ghost var steps: nat := 0;
    ghost var via: map<P, nat> := map[];
    while |queue| > 0
      invariant ChainInv(graph, startNode, distances, previousNodes, settled, via, rank)
      invariant QueueInv(graph, startNode, queue, distances, settled, rank, steps)
      invariant Pending(graph, distances, queue, {}) && EndQueued(distances, queue, endNode)
      decreases InfCount(distances, graph.order), FinSum(distances, graph.order), |queue|
    {
      ghost var c, cws := ExtractStep(graph, startNode, endNode, queue, distances, previousNodes,
                                      settled, via, rank, steps);
      queue := SortBy(queue, ByEntryDistance);
      var current := queue[0];
      var currentNode := current.node;
      if currentNode == endNode {
        ws := ShortestChain(graph, startNode, endNode, distances, previousNodes, settled, via, rank);
        path := ReconstructPath(previousNodes, Some(startNode), Some(endNode), rank);
        return;
      }
      queue := queue[1..];
      if currentNode !in settled {
        rank := rank[currentNode := steps];
      }
      settled := settled + {currentNode};
      steps := steps + 1;
      ghost var dist0, prev0, queue1, via0 := distances, previousNodes, queue, via;
      distances, previousNodes, queue, via :=
        RelaxNeighbours(graph.adj[currentNode], currentNode, distances, previousNodes, queue, via, graph.order);
      RelaxStep(graph, startNode, endNode, currentNode, settled, rank, steps, c, cws,
                dist0, prev0, queue1, via0, distances, previousNodes, queue, via);
    }
    path, ws := [], [];
    if Reachable(graph, startNode, endNode) {
      var p, ws' :| IsWalk(graph, p, ws', startNode, endNode);
      var found, e := Frontier(graph, startNode, distances, queue, p, ws');
      assert false;
    }
  }

  /** `calculateShortestPath(start, end)`: build the graph, take the keys
      nearest to `start` and to `end` (the first of equally near keys in
      creation order), and search between them. With no key both nearest
      nodes are null: the only entry, null, is the end node, and the path
      reconstructed from null is empty. The result is empty exactly when no
      walk joins the two nearest keys; otherwise it is a walk between them
      of least total weight. */
  method CalculateShortestPath<C, P(==, !new)>(elements: Option<seq<Way<P>>>, start: C, end: C,
                                               length: (P, P) -> nat, d: (C, P) -> real)
    returns (path: seq<P>, ghost graph: Graph<P>, ghost startNode: Option<P>, ghost endNode: Option<P>,
             ghost ws: seq<nat>)
    ensures elements.None? ==> graph == Graph([], map[])
    ensures elements.Some? ==> IsBuiltFrom(graph, Segments(elements.value), length)
    ensures graph.order == [] ==> startNode.None? && endNode.None? && path == []
    ensures graph.order != [] ==>
              && (exists k :: IsFirstNearest(d, start, graph.order, k) && startNode == Some(graph.order[k]))
              && (exists k :: IsFirstNearest(d, end, graph.order, k) && endNode == Some(graph.order[k]))
    ensures startNode.Some? && endNode.Some? ==>
              && (path == [] <==> !Reachable(graph, startNode.value, endNode.value))
              && (path != [] ==> IsWalk(graph, path, ws, startNode.value, endNode.value)
                                 && LowerBound(graph, startNode.value, endNode.value, Fin(Sum(ws))))
    ensures startNode.Some? && startNode == endNode ==> path == [startNode.value]
  {
    var g := GetGraphData(elements, length);
    graph := g;
    var s := FindNearestNode(start, g, d);
    var e := FindNearestNode(end, g, d);
    startNode, endNode := s, e;
    ws := [];
    if s.None? {
      path := ReconstructPath(map[], s, e, map[]);
    } else {
      KeyOrderLists(Segments(elements.value));
      assert s.value in g.order && e.value in g.order;
      path, ws := Search(g, s.value, e.value);
    }
  }
}
