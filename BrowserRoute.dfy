/** The browser copy's shortest-path search (`dijkstra` in public/script.js):
    every key starts in the queue, the queue is re-sorted by tentative
    distance on each round, and only neighbours still queued are relaxed. */
module BrowserRoute {
  import opened Common
  import opened BrowserGraph

  /** The adjacency list of `a` holds an entry `{b, w}`. */
  ghost predicate HasEdge<P>(g: map<P, seq<Edge<P>>>, a: P, b: P, w: nat) {
    a in g && Edge(b, w) in g[a]
  }

  /** `p` is a walk from `s` to `e` whose steps use the entries of weights `ws`. */
  ghost predicate IsWalk<P>(g: map<P, seq<Edge<P>>>, p: seq<P>, ws: seq<nat>, s: P, e: P) {
    && |p| == |ws| + 1
    && p[0] == s && p[|p| - 1] == e
    && forall i :: 0 <= i < |ws| ==> HasEdge(g, p[i], p[i + 1], ws[i])
  }

  ghost predicate Reachable<P(!new)>(g: map<P, seq<Edge<P>>>, s: P, e: P) {
    exists p, ws :: IsWalk(g, p, ws, s, e)
  }

  /** `d` is at most the weight of every walk from `s` to `e`. */
  ghost predicate LowerBound<P(!new)>(g: map<P, seq<Edge<P>>>, s: P, e: P, d: Dist) {
    forall p, ws :: IsWalk(g, p, ws, s, e) ==> AtMost(d, Fin(Sum(ws)))
  }

  /** Every entry of `x` towards a queued neighbour has been relaxed. */
  ghost predicate Relaxed<P>(g: map<P, seq<Edge<P>>>, dist: map<P, Dist>, queue: seq<P>, x: P)
    requires x in g && x in dist
  {
    forall e :: e in g[x] && e.id in queue && e.id in dist ==> AtMost(dist[e.id], Plus(dist[x], e.length))
  }

  /** The predecessor `prev[n]` of `n` is settled, has an entry towards `n`,
      and `n`'s distance was reached through it; on a settled `n` it was
      settled earlier. */
  ghost predicate PrevLink<P>(g: map<P, seq<Edge<P>>>, dist: map<P, Dist>, prev: map<P, Option<P>>,
                              done: set<P>, via: map<P, nat>, rank: map<P, nat>, n: P)
    requires n in prev && prev[n].Some? && n in dist
  {
    var p := prev[n].value;
    && p in done && p in dist && p in rank
    && n in via && HasEdge(g, p, n, via[n])
    && dist[n].Fin? && dist[n] == Plus(dist[p], via[n])
    && (n in done ==> n in rank && rank[p] < rank[n])
  }

  /** `path.reverse()`. */
  function Reversed<T>(s: seq<T>): (r: seq<T>)
    ensures |r| == |s|
  {
    if s == [] then [] else [s[|s| - 1]] + Reversed(s[..|s| - 1])
  }

  /** The reversal holds the same elements, the last first. */
  lemma {:induction false} ReversedElements<T>(s: seq<T>)
    ensures forall i :: 0 <= i < |s| ==> Reversed(s)[i] == s[|s| - 1 - i]
  {
    if s != [] {
      var pre, r := s[..|s| - 1], Reversed(s);
      ReversedElements(pre);
      assert r == [s[|s| - 1]] + Reversed(pre);
      forall i | 0 < i < |s|
        ensures r[i] == s[|s| - 1 - i]
      {
        calc {
          r[i];
          Reversed(pre)[i - 1];
          pre[|pre| - 1 - (i - 1)];
          s[|s| - 1 - i];
        }
      }
    }
  }

  lemma ReversedAppend<T>(s: seq<T>, x: T)
    ensures Reversed(s + [x]) == [x] + Reversed(s)
  {
    assert (s + [x])[..|s|] == s;
  }

  /** The sort key `distances[x]` of `queue.sort((a, b) => distances[a] - distances[b])`. */
  function ByDistance<P>(dist: map<P, Dist>): P -> Dist {
    x => if x in dist then dist[x] else Inf
  }

  /** The node `queue.shift()` takes after the sort has the least distance
      in the queue. */
  lemma SortedFirstLeast<P>(queue: seq<P>, dist: map<P, Dist>)
    requires queue != [] && forall x :: x in queue ==> x in dist
    ensures var s := SortBy(queue, ByDistance(dist));
            && s != [] && multiset(s) == multiset(queue) && (forall x :: x in s ==> x in dist)
            && forall j :: 0 <= j < |s| ==> AtMost(dist[s[0]], dist[s[j]])
  {
    var s := SortBy(queue, ByDistance(dist));
    SortBySorted(queue, ByDistance(dist));
    assert |s| == |multiset(s)| == |queue|;
    forall x | x in s ensures x in dist {
      assert x in multiset(s);
    }
    forall j | 0 < j < |s| ensures AtMost(dist[s[0]], dist[s[j]]) {
      assert AtMost(ByDistance(dist)(s[0]), ByDistance(dist)(s[j]));
    }
  }

  /** What one relaxation round over the entries `adj` of `u` does to the
      distances and predecessors: no distance grows; every entry towards a
      queued node is relaxed; a node whose distance changed is queued, got a
      strictly smaller distance through an entry of `u`, and has `u` as its
      predecessor; every other node keeps its predecessor. */
  ghost predicate RelaxedFrom<P>(adj: seq<Edge<P>>, u: P, queue: seq<P>,
                                 dist: map<P, Dist>, prev: map<P, Option<P>>, via: map<P, nat>,
                                 dist': map<P, Dist>, prev': map<P, Option<P>>, via': map<P, nat>) {
    && u in dist && dist'.Keys == dist.Keys && prev'.Keys == prev.Keys && prev.Keys == dist.Keys
    && (forall x :: x in queue ==> x in dist)
    && (forall n :: n in dist ==> AtMost(dist'[n], dist[n]))
    && (forall e :: e in adj && e.id in queue ==> AtMost(dist'[e.id], Plus(dist[u], e.length)))
    && (forall n :: n in dist && dist'[n] != dist[n] ==> n in queue && Below(dist'[n], dist[n]))
    && (forall n :: n in dist && dist'[n] != dist[n] ==> prev'[n] == Some(u) && n in via')
    && (forall n :: n in dist && n in via' && dist'[n] != dist[n] ==>
          Edge(n, via'[n]) in adj && dist'[n] == Plus(dist[u], via'[n]))
    && (forall n :: n in dist && dist'[n] == dist[n] ==>
          prev'[n] == prev[n] && (n in via ==> n in via' && via'[n] == via[n]))
  }

  /** The relaxation loop over `graph[current]`: a neighbour still in the
      queue for which `distances[current] + length` is smaller gets that
      distance and `current` as predecessor. */
  method Relax<P>(adj: seq<Edge<P>>, u: P, queue: seq<P>, dist: map<P, Dist>,
                  prev: map<P, Option<P>>, ghost via: map<P, nat>)
    returns (dist': map<P, Dist>, prev': map<P, Option<P>>, ghost via': map<P, nat>)
    requires u in dist && u !in queue && dist.Keys == prev.Keys
    requires forall x :: x in queue ==> x in dist
    ensures RelaxedFrom(adj, u, queue, dist, prev, via, dist', prev', via')
  {
    dist', prev', via' := dist, prev, via;
    assert adj[..0] == [];
    for k := 0 to |adj|
      invariant RelaxedFrom(adj[..k], u, queue, dist, prev, via, dist', prev', via')
    {
      var e := adj[k];
      assert adj[..k + 1] == adj[..k] + [e];
      var alt := Plus(dist'[u], e.length);
      if e.id in queue && Below(alt, dist'[e.id]) {
        RelaxEdgeUpdate(adj[..k], e, u, queue, dist, prev, via, dist', prev', via');
        dist' := dist'[e.id := alt];
        prev' := prev'[e.id := Some(u)];
        via' := via'[e.id := e.length];
      } else {
        RelaxEdgeSkip(adj[..k], e, u, queue, dist, prev, via, dist', prev', via');
      }
    }
    assert adj[..|adj|] == adj;
  }

  /** An edge whose end is not improved leaves the relaxation unchanged. */
  lemma RelaxEdgeSkip<P>(pre: seq<Edge<P>>, e: Edge<P>, u: P, queue: seq<P>,
                         dist: map<P, Dist>, prev: map<P, Option<P>>, via: map<P, nat>,
                         dist': map<P, Dist>, prev': map<P, Option<P>>, via': map<P, nat>)
    requires RelaxedFrom(pre, u, queue, dist, prev, via, dist', prev', via') && u !in queue
    requires !(e.id in queue && Below(Plus(dist'[u], e.length), dist'[e.id]))
    ensures RelaxedFrom(pre + [e], u, queue, dist, prev, via, dist', prev', via')
  {
  }

  /** An edge whose end is improved records the new distance, `u` as the
      predecessor and the edge's length. */
  lemma RelaxEdgeUpdate<P>(pre: seq<Edge<P>>, e: Edge<P>, u: P, queue: seq<P>,
                           dist: map<P, Dist>, prev: map<P, Option<P>>, via: map<P, nat>,
                           dist': map<P, Dist>, prev': map<P, Option<P>>, via': map<P, nat>)
    requires RelaxedFrom(pre, u, queue, dist, prev, via, dist', prev', via') && u !in queue
    requires e.id in queue && Below(Plus(dist'[u], e.length), dist'[e.id])
    ensures RelaxedFrom(pre + [e], u, queue, dist, prev, via,
                        dist'[e.id := Plus(dist'[u], e.length)], prev'[e.id := Some(u)], via'[e.id := e.length])
  {
    assert dist'[u] == dist[u];
  }

  /** A walk from `start` into the queue leaves the settled nodes through
      some queued node whose distance is at most the walk's weight. */
  lemma {:induction false} Frontier<P(!new)>(g: map<P, seq<Edge<P>>>, dist: map<P, Dist>, queue: seq<P>,
                                       done: set<P>, start: P, p: seq<P>, ws: seq<nat>)
    returns (y: P)
    requires |p| == |ws| + 1 && p[0] == start && p[|p| - 1] in queue
    requires forall i :: 0 <= i < |ws| ==> HasEdge(g, p[i], p[i + 1], ws[i])
    requires dist.Keys == g.Keys && start in dist && dist[start] == Fin(0)
    requires forall x :: x in queue ==> x in g
    requires forall x :: x in g && x !in queue ==> x in done
    requires forall x :: x in done ==> x in g && LowerBound(g, start, x, dist[x]) && Relaxed(g, dist, queue, x)
    ensures y in queue && AtMost(dist[y], Fin(Sum(ws)))
    decreases |p|
  {
    if ws == [] {
      y := start;
    } else {
      var n := |ws|;
      var v, w := p[n - 1], ws[n - 1];
      assert HasEdge(g, v, p[n], w);
      var p', ws' := p[..n], ws[..n - 1];
      if v in queue {
        y := Frontier(g, dist, queue, done, start, p', ws');
      } else {
        assert IsWalk(g, p', ws', start, v);
        y := p[n];
      }
    }
  }

  /** A node of minimal distance in the queue has its final distance. */
  lemma Settle<P(!new)>(g: map<P, seq<Edge<P>>>, dist: map<P, Dist>, queue: seq<P>,
                  done: set<P>, start: P, u: P)
    requires dist.Keys == g.Keys && start in dist && dist[start] == Fin(0)
    requires u in queue && forall x :: x in queue ==> x in g
    requires forall j :: 0 <= j < |queue| ==> AtMost(dist[u], dist[queue[j]])
    requires forall x :: x in g && x !in queue ==> x in done
    requires forall x :: x in done ==> x in g && LowerBound(g, start, x, dist[x]) && Relaxed(g, dist, queue, x)
    ensures LowerBound(g, start, u, dist[u])
  {
    forall p, ws | IsWalk(g, p, ws, start, u)
      ensures AtMost(dist[u], Fin(Sum(ws)))
    {
      var y := Frontier(g, dist, queue, done, start, p, ws);
    }
  }

  /** The predecessor links of a search state: `start` is at distance 0
      with no predecessor, every other node of finite distance has one, and
      every link satisfies `PrevLink`. */
  ghost predicate ChainInv<P>(g: map<P, seq<Edge<P>>>, start: P, dist: map<P, Dist>, prev: map<P, Option<P>>,
                              done: set<P>, via: map<P, nat>, rank: map<P, nat>) {
    && dist.Keys == g.Keys && prev.Keys == g.Keys && start in g
    && dist[start] == Fin(0) && prev[start] == None
    && done <= g.Keys && rank.Keys == done
    && (forall n :: n in prev && prev[n].Some? ==> PrevLink(g, dist, prev, done, via, rank, n))
    && (forall n :: n in dist && dist[n].Fin? && n != start ==> prev[n].Some?)
  }

  /** The queue of a search state: the graph's keys not yet taken, each
      once; every node taken has its final distance and a rank below `steps`. */
  ghost predicate QueueInv<P(!new)>(g: map<P, seq<Edge<P>>>, start: P, queue: seq<P>, done: set<P>,
                                    dist: map<P, Dist>, rank: map<P, nat>, steps: nat) {
    && (forall x :: multiset(queue)[x] == if x in g && x !in done then 1 else 0)
    && (forall x :: x in rank ==> rank[x] < steps)
    && (forall x :: x in done && x in dist ==> LowerBound(g, start, x, dist[x]))
  }

  /** Every node of `xs` has relaxed its entries. */
  ghost predicate AllRelaxed<P>(g: map<P, seq<Edge<P>>>, dist: map<P, Dist>, queue: seq<P>, xs: set<P>) {
    forall x :: x in xs && x in g && x in dist ==> Relaxed(g, dist, queue, x)
  }

  /** Taking the first node of the sorted queue, one of minimal distance,
      gives it its final distance and keeps the queue invariant, the taken
      node getting the next rank. */
  lemma ExtractKeepsQueue<P(!new)>(g: map<P, seq<Edge<P>>>, start: P, queue: seq<P>, sorted: seq<P>, done: set<P>,
                                   dist: map<P, Dist>, rank: map<P, nat>, steps: nat)
    requires dist.Keys == g.Keys && start in g && dist[start] == Fin(0) && done <= g.Keys
    requires QueueInv(g, start, queue, done, dist, rank, steps) && AllRelaxed(g, dist, queue, done)
    requires sorted != [] && multiset(sorted) == multiset(queue)
    requires forall j :: 0 <= j < |sorted| ==> sorted[0] in dist && AtMost(dist[sorted[0]], dist[sorted[j]])
    ensures sorted[0] in g && sorted[0] !in done
    ensures QueueInv(g, start, sorted[1..], done + {sorted[0]}, dist, rank[sorted[0] := steps], steps + 1)
  {
    var u := sorted[0];
    ExtractMultiset(g, queue, sorted, done);
    SameMembers(queue, sorted);
    forall x | x in done && x in g && x in dist ensures Relaxed(g, dist, sorted, x) {
      assert Relaxed(g, dist, queue, x);
    }
    Settle(g, dist, sorted, done, start, u);
  }

  /** Taking the first node out of a queue holding each untaken key once
      leaves each remaining untaken key once. */
  lemma ExtractMultiset<P>(g: map<P, seq<Edge<P>>>, queue: seq<P>, sorted: seq<P>, done: set<P>)
    requires forall x :: multiset(queue)[x] == if x in g && x !in done then 1 else 0
    requires sorted != [] && multiset(sorted) == multiset(queue)
    ensures sorted[0] in g && sorted[0] !in done
    ensures forall x :: x in g && x !in sorted ==> x in done
    ensures forall x :: multiset(sorted[1..])[x] == if x in g && x !in done + {sorted[0]} then 1 else 0
  {
    assert sorted == [sorted[0]] + sorted[1..];
    assert multiset(sorted) == multiset{sorted[0]} + multiset(sorted[1..]);
    assert sorted[0] in multiset(queue);
    forall x | x in g && x !in sorted ensures x in done {
      assert multiset(queue)[x] == 0;
    }
  }

  /** Two orderings of the same multiset have the same members. */
  lemma SameMembers<P>(queue: seq<P>, sorted: seq<P>)
    requires multiset(sorted) == multiset(queue)
    ensures forall x :: x in sorted <==> x in queue
  {
    forall x ensures x in sorted <==> x in queue {
      assert x in sorted <==> x in multiset(sorted);
    }
  }

  /** Taking a node keeps the predecessor links, the node getting the
      next rank. */
  lemma ExtractKeepsChain<P>(g: map<P, seq<Edge<P>>>, start: P, done: set<P>, u: P,
                             dist: map<P, Dist>, prev: map<P, Option<P>>, via: map<P, nat>,
                             rank: map<P, nat>, steps: nat)
    requires ChainInv(g, start, dist, prev, done, via, rank) && u in g && u !in done
    requires forall x :: x in rank ==> rank[x] < steps
    ensures ChainInv(g, start, dist, prev, done + {u}, via, rank[u := steps])
  {
    var done', rank' := done + {u}, rank[u := steps];
    forall n | n in prev && prev[n].Some?
      ensures PrevLink(g, dist, prev, done', via, rank', n)
    {
      assert PrevLink(g, dist, prev, done, via, rank, n);
    }
  }

  /** Nodes relaxed against a queue stay relaxed against the queue less a
      node. */
  lemma ExtractKeepsRelaxed<P>(g: map<P, seq<Edge<P>>>, queue: seq<P>, sorted: seq<P>, done: set<P>,
                               dist: map<P, Dist>)
    requires AllRelaxed(g, dist, queue, done)
    requires sorted != [] && multiset(sorted) == multiset(queue)
    ensures AllRelaxed(g, dist, sorted[1..], done)
  {
    forall x | x in done && x in g && x in dist
      ensures Relaxed(g, dist, sorted[1..], x)
    {
      assert Relaxed(g, dist, queue, x);
      forall e | e in g[x] && e.id in sorted[1..] ensures e.id in queue {
        assert e.id in sorted;
        assert e.id in multiset(queue);
      }
    }
  }

  /** Relaxing the entries of the node just taken leaves the distances of
      the nodes taken alone. */
  lemma RelaxKeepsTaken<P>(queue: seq<P>, done: set<P>, u: P, adj: seq<Edge<P>>,
                           dist: map<P, Dist>, prev: map<P, Option<P>>, via: map<P, nat>,
                           dist': map<P, Dist>, prev': map<P, Option<P>>, via': map<P, nat>)
    requires forall x :: x in done ==> x !in queue
    requires RelaxedFrom(adj, u, queue, dist, prev, via, dist', prev', via')
    ensures forall x :: x in done && x in dist ==> dist'[x] == dist[x]
  {
  }

  /** Relaxing keeps the predecessor links. */
  lemma RelaxKeepsChain<P>(g: map<P, seq<Edge<P>>>, start: P, queue: seq<P>, done: set<P>, u: P,
                           dist: map<P, Dist>, prev: map<P, Option<P>>, via: map<P, nat>, rank: map<P, nat>,
                           dist': map<P, Dist>, prev': map<P, Option<P>>, via': map<P, nat>)
    requires ChainInv(g, start, dist, prev, done, via, rank)
    requires forall x :: x in g ==> (x in done <==> x !in queue)
    requires u in done && u in g
    requires RelaxedFrom(g[u], u, queue, dist, prev, via, dist', prev', via')
    ensures ChainInv(g, start, dist', prev', done, via', rank)
  {
    RelaxKeepsTaken(queue, done, u, g[u], dist, prev, via, dist', prev', via');
    forall n | n in prev' && prev'[n].Some?
      ensures PrevLink(g, dist', prev', done, via', rank, n)
    {
      if dist'[n] == dist[n] {
        assert PrevLink(g, dist, prev, done, via, rank, n);
      }
    }
  }

  /** Relaxing keeps every node taken relaxed, and relaxes the node just
      taken. */
  lemma RelaxKeepsRelaxed<P>(g: map<P, seq<Edge<P>>>, queue: seq<P>, done: set<P>, u: P,
                             dist: map<P, Dist>, prev: map<P, Option<P>>, via: map<P, nat>,
                             dist': map<P, Dist>, prev': map<P, Option<P>>, via': map<P, nat>)
    requires forall x :: x in done ==> x !in queue
    requires AllRelaxed(g, dist, queue, done - {u})
    requires u in done && u in g
    requires RelaxedFrom(g[u], u, queue, dist, prev, via, dist', prev', via')
    ensures AllRelaxed(g, dist', queue, done)
  {
    RelaxKeepsTaken(queue, done, u, g[u], dist, prev, via, dist', prev', via');
    forall x | x in done && x in g && x in dist'
      ensures Relaxed(g, dist', queue, x)
    {
      if x != u {
        assert Relaxed(g, dist, queue, x);
      }
    }
  }

  /** One extraction: the first node of the sorted queue has its final
      distance, and taking it keeps the invariants, the node getting the next
      rank. */
  lemma ExtractStep<P(!new)>(g: map<P, seq<Edge<P>>>, start: P, queue: seq<P>, done: set<P>,
                             dist: map<P, Dist>, prev: map<P, Option<P>>, via: map<P, nat>,
                             rank: map<P, nat>, steps: nat)
    requires ChainInv(g, start, dist, prev, done, via, rank)
    requires QueueInv(g, start, queue, done, dist, rank, steps) && AllRelaxed(g, dist, queue, done)
    requires queue != []
    ensures var sorted := SortBy(queue, ByDistance(dist));
            var u := sorted[0];
            && sorted != [] && |sorted| == |queue| && u in g && u !in done
            && ChainInv(g, start, dist, prev, done + {u}, via, rank[u := steps])
            && QueueInv(g, start, sorted[1..], done + {u}, dist, rank[u := steps], steps + 1)
            && AllRelaxed(g, dist, sorted[1..], done)
  {
    SortedFirstLeast(queue, dist);
    var sorted := SortBy(queue, ByDistance(dist));
    assert |sorted| == |multiset(sorted)| == |queue|;
    ExtractKeepsQueue(g, start, queue, sorted, done, dist, rank, steps);
    ExtractKeepsChain(g, start, done, sorted[0], dist, prev, via, rank, steps);
    ExtractKeepsRelaxed(g, queue, sorted, done, dist);
  }

  /** One relaxation round from the node just taken keeps the invariants. */
  lemma RelaxStep<P(!new)>(g: map<P, seq<Edge<P>>>, start: P, queue: seq<P>, done: set<P>, u: P,
                           dist: map<P, Dist>, prev: map<P, Option<P>>, via: map<P, nat>,
                           rank: map<P, nat>, steps: nat,
                           dist': map<P, Dist>, prev': map<P, Option<P>>, via': map<P, nat>)
    requires ChainInv(g, start, dist, prev, done, via, rank)
    requires QueueInv(g, start, queue, done, dist, rank, steps) && AllRelaxed(g, dist, queue, done - {u})
    requires u in done && u in g
    requires RelaxedFrom(g[u], u, queue, dist, prev, via, dist', prev', via')
    ensures ChainInv(g, start, dist', prev', done, via', rank)
    ensures QueueInv(g, start, queue, done, dist', rank, steps) && AllRelaxed(g, dist', queue, done)
  {
    assert forall x :: x in g ==> (x in done <==> x !in queue) by {
      forall x | x in g ensures x in done <==> x !in queue {
        assert multiset(queue)[x] == if x !in done then 1 else 0;
      }
    }
    RelaxKeepsTaken(queue, done, u, g[u], dist, prev, via, dist', prev', via');
    RelaxKeepsChain(g, start, queue, done, u, dist, prev, via, rank, dist', prev', via');
    RelaxKeepsRelaxed(g, queue, done, u, dist, prev, via, dist', prev', via');
  }

  /** The initialisation loop: every key at distance Infinity with no
      predecessor, every key queued in creation order; then `start` at 0. */
  method Initialise<P(==)>(keys: seq<P>, start: P) returns (dist: map<P, Dist>, prev: map<P, Option<P>>, queue: seq<P>)
    ensures dist.Keys == (set x | x in keys) + {start} && prev.Keys == set x | x in keys
    ensures queue == keys
    ensures forall x :: x in dist ==> dist[x] == if x == start then Fin(0) else Inf
    ensures forall x :: x in prev ==> prev[x] == None
  {
    dist, prev, queue := map[], map[], [];
    for k := 0 to |keys|
      invariant dist.Keys == prev.Keys == set x | x in keys[..k]
      invariant queue == keys[..k]
      invariant forall x :: x in dist ==> dist[x] == Inf && prev[x] == None
    {
      dist := dist[keys[k] := Inf];
      prev := prev[keys[k] := None];
      queue := queue + [keys[k]];
      assert keys[..k + 1] == keys[..k] + [keys[k]];
    }
    assert keys[..|keys|] == keys;
    dist := dist[start := Fin(0)];
  }
  /** `fw` is a walk ending in `end` along entries of weights `ws`, whose
      first node is in `prev`, and `end`'s distance is the first node's
      distance plus those weights. */
  ghost predicate Followed<P>(g: map<P, seq<Edge<P>>>, dist: map<P, Dist>, prev: map<P, Option<P>>,
                              end: P, fw: seq<P>, ws: seq<nat>) {
    && |fw| == |ws| + 1 && fw[|fw| - 1] == end && fw[0] in prev && fw[0] in dist && end in dist
    && (forall i :: 0 <= i < |ws| ==> HasEdge(g, fw[i], fw[i + 1], ws[i]))
    && dist[end] == Plus(dist[fw[0]], Sum(ws))
  }

  /** Stepping back from the first node of a followed walk to its
      predecessor `n` gives a longer followed walk. */
  lemma FollowStep<P>(g: map<P, seq<Edge<P>>>, start: P, dist: map<P, Dist>, prev: map<P, Option<P>>,
                      done: set<P>, via: map<P, nat>, rank: map<P, nat>, end: P, fw: seq<P>, ws: seq<nat>, n: P)
    requires ChainInv(g, start, dist, prev, done, via, rank)
    requires Followed(g, dist, prev, end, fw, ws) && prev[fw[0]] == Some(n)
    ensures fw[0] in via && Followed(g, dist, prev, end, [n] + fw, [via[fw[0]]] + ws)
  {
    assert PrevLink(g, dist, prev, done, via, rank, fw[0]);
    SumCons(via[fw[0]], ws);
    var fw', ws' := [n] + fw, [via[fw[0]]] + ws;
    forall i | 0 <= i < |ws'|
      ensures HasEdge(g, fw'[i], fw'[i + 1], ws'[i])
    {
      if i > 0 {
        assert fw'[i] == fw[i - 1] && fw'[i + 1] == fw[i] && ws'[i] == ws[i - 1];
      }
    }
  }

  /** The path-building loop `for (at = end; at !== null; at = previous[at])
      path.push(at)` and the reversal after it. Following the links from a
      node taken gives a path that ends in `end`, starts at a node without
      predecessor and follows entries of the graph, and `end`'s distance is
      the first node's distance plus the weights of those entries. */
  method FollowPrevious<P>(prev: map<P, Option<P>>, end: P, ghost g: map<P, seq<Edge<P>>>, ghost start: P,
                           ghost dist: map<P, Dist>, ghost done: set<P>, ghost via: map<P, nat>,
                           ghost rank: map<P, nat>)
    returns (path: seq<P>, ghost ws: seq<nat>)
    requires ChainInv(g, start, dist, prev, done, via, rank) && end in done
    ensures |path| == |ws| + 1 && path[|path| - 1] == end
    ensures path[0] in prev && prev[path[0]] == None
    ensures forall i :: 0 <= i < |ws| ==> HasEdge(g, path[i], path[i + 1], ws[i])
    ensures dist[end] == Plus(dist[path[0]], Sum(ws))
    ensures start == end ==> path == [end]
  {
    path := [];
    var at: Option<P> := Some(end);
    ghost var fw: seq<P> := [];
    ws := [];
    while at.Some?
      invariant at.Some? ==> at.value in done && at.value in rank
      invariant fw == Reversed(path)
      invariant fw == [] ==> at == Some(end) && ws == []
      invariant fw != [] ==> Followed(g, dist, prev, end, fw, ws) && at == prev[fw[0]]
      invariant start == end && fw != [] ==> fw == [end] && at == None
      decreases if at.Some? then rank[at.value] + 1 else 0
    {
      var n := at.value;
      ReversedAppend(path, n);
      path := path + [n];
      if fw != [] {
        FollowStep(g, start, dist, prev, done, via, rank, end, fw, ws, n);
        ws := [via[fw[0]]] + ws;
      }
      fw := [n] + fw;
      at := prev[n];
    }
    path := Reversed(path);
  }

  /** `dijkstra(start, end)` over the graph `graph` whose keys, in creation
      order, are `keys`. The result is empty exactly when no walk joins
      `start` to `end`; otherwise it is a walk from `start` to `end` of least
      total length. */
  method Dijkstra<P(==, !new)>(graph: map<P, seq<Edge<P>>>, keys: seq<P>, start: P, end: P)
    returns (path: seq<P>, ghost ws: seq<nat>)
    requires start in graph && end in graph
    requires Distinct(keys) && (set k | k in keys) == graph.Keys
    ensures path == [] <==> !Reachable(graph, start, end)
    ensures path != [] ==> IsWalk(graph, path, ws, start, end) && LowerBound(graph, start, end, Fin(Sum(ws)))
    ensures start == end ==> path == [start]
  {
    var dist, prev, queue := Initialise(keys, start);
    DistinctCounts(keys);
    ghost var done: set<P> := {};
    ghost var rank: map<P, nat> := map[];
    ghost var steps: nat := 0;
    ghost var via: map<P, nat> := map[];
    while queue != []
      invariant ChainInv(graph, start, dist, prev, done, via, rank)
      invariant QueueInv(graph, start, queue, done, dist, rank, steps)
      invariant AllRelaxed(graph, dist, queue, done)
      invariant end !in done
      decreases |queue|
    {
      ExtractStep(graph, start, queue, done, dist, prev, via, rank, steps);
      queue := SortBy(queue, ByDistance(dist));
      var u := queue[0];
      queue := queue[1..];
      done := done + {u};
      rank := rank[u := steps];
      steps := steps + 1;
      if u == end {
        break;
      }
      ghost var dist0, prev0, via0 := dist, prev, via;
      dist, prev, via := Relax(graph[u], u, queue, dist, prev, via);
      RelaxStep(graph, start, queue, done, u, dist0, prev0, via0, rank, steps, dist, prev, via);
    }
    assert end in done && LowerBound(graph, start, end, dist[end]);
    path, ws := FollowPrevious(prev, end, graph, start, dist, done, via, rank);
    if dist[end].Inf? {
      path, ws := [], [];
    } else {
      assert IsWalk(graph, path, ws, start, end);
    }
  }
}
