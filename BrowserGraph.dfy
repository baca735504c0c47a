/** The browser copy's graph builder (`buildGraph` in public/script.js): a
    global adjacency-list multigraph, rebuilt from scratch from the ways of the
    feed, in which every segment appends one entry at each of its ends. */
module BrowserGraph {
  import opened Common

  /** One adjacency entry `{ id, length }`. */
  datatype Edge<P> = Edge(id: P, length: nat)

  /** Reference definition of the adjacency list of `a` after the segments
      `segs` have been added in order: a segment `(A, B)` of length `L`
      contributes `{B, L}` to `A`'s list and `{A, L}` to `B`'s list. */
  function Incident<P(==)>(segs: seq<(P, P)>, a: P, length: (P, P) -> nat): seq<Edge<P>> {
    if segs == [] then []
    else
      var s := segs[|segs| - 1];
      Incident(segs[..|segs| - 1], a, length)
      + (if s.0 == a then [Edge(s.1, length(s.0, s.1))] else [])
      + (if s.1 == a then [Edge(s.0, length(s.0, s.1))] else [])
  }

  /** `graph` and its key order are exactly what adding `segs` to an empty
      graph yields. */
  ghost predicate IsBuiltFrom<P>(graph: map<P, seq<Edge<P>>>, keys: seq<P>,
                                     segs: seq<(P, P)>, length: (P, P) -> nat) {
    && keys == KeyOrder(segs)
    && graph.Keys == Endpoints(segs)
    && forall a :: a in graph ==> graph[a] == Incident(segs, a, length)
  }

  /** The global state of the browser page that the router uses: the graph
      and the order in which its keys were created. */
  class RoadMap<P(==)> {
    var graph: map<P, seq<Edge<P>>>
    var keys: seq<P>

    constructor ()
      ensures graph == map[] && keys == []
    {
      graph := map[];
      keys := [];
    }

    /** One iteration of the inner loop of `buildGraph`: create the missing
        keys, then push an entry at each end of the segment. */
    method AddSegment(a: P, b: P, length: (P, P) -> nat, ghost done: seq<(P, P)>)
      requires IsBuiltFrom(graph, keys, done, length)
      modifies this
      ensures IsBuiltFrom(graph, keys, done + [(a, b)], length)
    {
      var w := length(a, b);
      KeysStep(graph.Keys, keys, done, a, b);
      var g, ks := graph, keys;
      if a !in g {
        IncidentOutside(done, a, length);
        g := g[a := []];
        ks := ks + [a];
      }
      if b !in g {
        IncidentOutside(done, b, length);
        g := g[b := []];
        ks := ks + [b];
      }
      g := g[a := g[a] + [Edge(b, w)]];
      g := g[b := g[b] + [Edge(a, w)]];
      ghost var segs := done + [(a, b)];
      forall x | x in g
        ensures g[x] == Incident(segs, x, length)
      {
        IncidentAppend(done, (a, b), x, length);
      }
      graph, keys := g, ks;
    }

    /** The inner loop of `buildGraph` over the points of one way: add each
        pair of consecutive points as a segment. */
    method AddWay(pts: seq<P>, length: (P, P) -> nat, ghost done: seq<(P, P)>)
      requires IsBuiltFrom(graph, keys, done, length)
      modifies this
      ensures IsBuiltFrom(graph, keys, done + PairsOf(pts), length)
    {
      ghost var cur := done;
      var i := 0;
      while i < |pts| - 1
        invariant |pts| == 0 ==> i == 0 && cur == done
        invariant |pts| > 0 ==> i < |pts| && cur == done + PairsOf(pts[..i + 1])
        invariant IsBuiltFrom(graph, keys, cur, length)
      {
        PairsPrefix(pts, i);
        AddSegment(pts[i], pts[i + 1], length, cur);
        cur := cur + [(pts[i], pts[i + 1])];
        i := i + 1;
      }
      if |pts| == 0 {
        assert done + PairsOf(pts) == done;
      } else {
        assert pts[..i + 1] == pts;
      }
    }

    /** `buildGraph(data)`: reset the graph, then add every segment of every
        way that has a geometry. */
    method BuildGraph(elements: seq<Way<P>>, length: (P, P) -> nat)
      modifies this
      ensures IsBuiltFrom(graph, keys, Segments(elements), length)
    {
      graph := map[];
      keys := [];
      assert Endpoints<P>([]) == {};
      for k := 0 to |elements|
        invariant IsBuiltFrom(graph, keys, Segments(elements[..k]), length)
      {
        SegmentsPrefix(elements, k);
        ghost var before, after := Segments(elements[..k]), Segments(elements[..k + 1]);
        var way := elements[k];
        if way.geometry.Some? {
          assert after == before + PairsOf(way.geometry.value);
          AddWay(way.geometry.value, length, before);
        } else {
          assert after == before + [] == before;
        }
      }
      assert elements[..|elements|] == elements;
    }
  }

  lemma IncidentAppend<P>(segs: seq<(P, P)>, s: (P, P), x: P, length: (P, P) -> nat)
    ensures Incident(segs + [s], x, length)
            == Incident(segs, x, length)
               + (if s.0 == x then [Edge(s.1, length(s.0, s.1))] else [])
               + (if s.1 == x then [Edge(s.0, length(s.0, s.1))] else [])
  {
    assert (segs + [s])[..|segs|] == segs;
  }

  lemma {:induction false} IncidentOutside<P>(segs: seq<(P, P)>, a: P, length: (P, P) -> nat)
    requires a !in Endpoints(segs)
    ensures Incident(segs, a, length) == []
  {
    if segs != [] {
      var pre := segs[..|segs| - 1];
      assert Endpoints(pre) <= Endpoints(segs);
      IncidentOutside(pre, a, length);
    }
  }

  /** Adjacency is symmetric, duplicates included: `{B, L}` occurs in `A`'s
      list exactly as often as `{A, L}` occurs in `B`'s. */
  lemma {:induction false} IncidentSymmetric<P>(segs: seq<(P, P)>, a: P, b: P, w: nat, length: (P, P) -> nat)
    ensures multiset(Incident(segs, a, length))[Edge(b, w)] == multiset(Incident(segs, b, length))[Edge(a, w)]
  {
    if segs != [] {
      var pre, s := segs[..|segs| - 1], segs[|segs| - 1];
      IncidentSymmetric(pre, a, b, w, length);
      var l := length(s.0, s.1);
      assert multiset(Incident(segs, a, length))[Edge(b, w)]
             == multiset(Incident(pre, a, length))[Edge(b, w)]
                + (if s.0 == a && s.1 == b && l == w then 1 else 0)
                + (if s.1 == a && s.0 == b && l == w then 1 else 0);
    }
  }

  /** An entry `{B, L}` is in `A`'s list iff some segment joins `A` and `B`
      and has length `L`. */
  lemma {:induction false} IncidentIsSegment<P>(segs: seq<(P, P)>, a: P, b: P, w: nat, length: (P, P) -> nat)
    ensures Edge(b, w) in Incident(segs, a, length) <==>
            exists i :: 0 <= i < |segs| && Joins(segs[i], a, b) && w == length(segs[i].0, segs[i].1)
  {
    if segs != [] {
      var pre, s := segs[..|segs| - 1], segs[|segs| - 1];
      IncidentIsSegment(pre, a, b, w, length);
      if exists i :: 0 <= i < |pre| && Joins(pre[i], a, b) && w == length(pre[i].0, pre[i].1) {
        var i :| 0 <= i < |pre| && Joins(pre[i], a, b) && w == length(pre[i].0, pre[i].1);
        assert segs[i] == pre[i];
      }
      if Joins(s, a, b) && w == length(s.0, s.1) {
        assert segs[|segs| - 1] == s;
      }
      if exists i :: 0 <= i < |segs| && Joins(segs[i], a, b) && w == length(segs[i].0, segs[i].1) {
        var i :| 0 <= i < |segs| && Joins(segs[i], a, b) && w == length(segs[i].0, segs[i].1);
        if i < |pre| {
          assert pre[i] == segs[i];
        }
      }
    }
  }

  /** The number of adjacency entries over the keys `keys`. */
  function TotalEntries<P(==)>(segs: seq<(P, P)>, keys: seq<P>, length: (P, P) -> nat): nat {
    if keys == [] then 0
    else TotalEntries(segs, keys[..|keys| - 1], length) + |Incident(segs, keys[|keys| - 1], length)|
  }

  lemma {:induction false} TotalStep<P>(segs: seq<(P, P)>, s: (P, P), keys: seq<P>, length: (P, P) -> nat)
    ensures TotalEntries(segs + [s], keys, length)
            == TotalEntries(segs, keys, length) + multiset(keys)[s.0] + multiset(keys)[s.1]
  {
    assert (segs + [s])[..|segs|] == segs;
    if keys != [] {
      var pre := keys[..|keys| - 1];
      TotalStep(segs, s, pre, length);
      assert keys == pre + [keys[|keys| - 1]];
    }
  }

  lemma {:induction false} DistinctOnce<P>(keys: seq<P>, x: P)
    requires Distinct(keys) && x in keys
    ensures multiset(keys)[x] == 1
  {
    var pre, k := keys[..|keys| - 1], keys[|keys| - 1];
    assert keys == pre + [k];
    if x == k {
      assert x !in pre;
    } else {
      DistinctOnce(pre, x);
    }
  }

  /** Every segment yields two entries: over all keys the graph holds twice
      as many entries as there are segments. */
  lemma {:induction false} EntryCount<P>(segs: seq<(P, P)>, keys: seq<P>, length: (P, P) -> nat)
    requires Distinct(keys) && Endpoints(segs) <= (set k | k in keys)
    ensures TotalEntries(segs, keys, length) == 2 * |segs|
  {
    if segs == [] {
      EmptyTotal(keys, length);
    } else {
      var pre, s := segs[..|segs| - 1], segs[|segs| - 1];
      assert segs == pre + [s];
      assert Endpoints(pre) <= Endpoints(segs);
      EntryCount(pre, keys, length);
      TotalStep(pre, s, keys, length);
      assert s.0 in Endpoints(segs) && s.1 in Endpoints(segs);
      DistinctOnce(keys, s.0);
      DistinctOnce(keys, s.1);
    }
  }

  lemma {:induction false} EmptyTotal<P>(keys: seq<P>, length: (P, P) -> nat)
    ensures TotalEntries([], keys, length) == 0
  {
    if keys != [] {
      EmptyTotal(keys[..|keys| - 1], length);
    }
  }
}
