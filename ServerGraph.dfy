/** The server copy's graph builder (the callback of `getGraphData` in
    public/pathSearcher.js): an object of objects, `graph[a][b]` holding the
    weight of the segment between `a` and `b`, written in both directions,
    a later segment between the same points overwriting the earlier weight. */
module ServerGraph {
  import opened Common

  /** The graph object: its keys in creation order, and for each key the
      object from neighbour to weight. */
  datatype Graph<P> = Graph(order: seq<P>, adj: map<P, map<P, nat>>)

  /** Reference definition of `graph[a][b]` after the segments `segs` have
      been written in order: the weight of the last segment joining `a` and
      `b`, in either direction; none if no segment joins them. */
  function LastLink<P(==)>(segs: seq<(P, P)>, a: P, b: P, length: (P, P) -> nat): Option<nat> {
    if segs == [] then None
    else
      var s := segs[|segs| - 1];
      if Joins(s, a, b) then Some(length(s.0, s.1)) else LastLink(segs[..|segs| - 1], a, b, length)
  }

  /** `row` is the object `graph[a]` after writing `segs`: it holds exactly
      the points linked to `a`, each with the weight last written. */
  ghost predicate IsRowOf<P(!new)>(row: map<P, nat>, segs: seq<(P, P)>, a: P, length: (P, P) -> nat) {
    forall b :: && (b in row <==> LastLink(segs, a, b, length).Some?)
                && (b in row ==> row[b] == LastLink(segs, a, b, length).value)
  }

  /** `g` is what writing `segs` into an empty object yields. */
  ghost predicate IsBuiltFrom<P(!new)>(g: Graph<P>, segs: seq<(P, P)>, length: (P, P) -> nat) {
    && g.order == KeyOrder(segs)
    && g.adj.Keys == Endpoints(segs)
    && forall a :: a in g.adj ==> IsRowOf(g.adj[a], segs, a, length)
  }

  lemma LastLinkAppend<P>(segs: seq<(P, P)>, s: (P, P), a: P, b: P, length: (P, P) -> nat)
    ensures LastLink(segs + [s], a, b, length)
            == if Joins(s, a, b) then Some(length(s.0, s.1)) else LastLink(segs, a, b, length)
  {
    assert (segs + [s])[..|segs|] == segs;
  }

  /** Only the endpoints of segments have links. */
  lemma {:induction false} LastLinkOutside<P>(segs: seq<(P, P)>, a: P, b: P, length: (P, P) -> nat)
    requires a !in Endpoints(segs)
    ensures LastLink(segs, a, b, length) == None
  {
    if segs != [] {
      var pre := segs[..|segs| - 1];
      assert Endpoints(pre) <= Endpoints(segs);
      LastLinkOutside(pre, a, b, length);
    }
  }

  /** One iteration of the inner loop: create the missing keys, then write
      the weight of the segment in both directions. */
  method SetLink<P(==,!new)>(graph: map<P, map<P, nat>>, order: seq<P>, a: P, b: P, length: (P, P) -> nat,
                        ghost done: seq<(P, P)>)
    returns (graph': map<P, map<P, nat>>, order': seq<P>)
    requires IsBuiltFrom(Graph(order, graph), done, length)
    ensures IsBuiltFrom(Graph(order', graph'), done + [(a, b)], length)
  {
    KeysStep(graph.Keys, order, done, a, b);
    graph', order' := graph, order;
    if a !in graph' {
      graph' := graph'[a := map[]];
      order' := order' + [a];
    }
    if b !in graph' {
      graph' := graph'[b := map[]];
      order' := order' + [b];
    }
    var distance := length(a, b);
    graph' := graph'[a := graph'[a][b := distance]];
    graph' := graph'[b := graph'[b][a := distance]];
    ghost var segs := done + [(a, b)];
    forall x | x in graph'
      ensures IsRowOf(graph'[x], segs, x, length)
    {
      var row := if x in graph then graph[x] else map[];
      if x !in graph {
        forall y ensures LastLink(done, x, y, length) == None {
          LastLinkOutside(done, x, y, length);
        }
      }
      RowStep(row, done, x, a, b, length);
    }
  }

  /** Writing the segment `(a, b)` into the row of `x`. */
  lemma RowStep<P(!new)>(row: map<P, nat>, done: seq<(P, P)>, x: P, a: P, b: P, length: (P, P) -> nat)
    requires IsRowOf(row, done, x, length)
    ensures var w := length(a, b);
            var r1 := if x == a then row[b := w] else row;
            IsRowOf(if x == b then r1[a := w] else r1, done + [(a, b)], x, length)
  {
    forall y ensures LastLink(done + [(a, b)], x, y, length)
                     == if Joins((a, b), x, y) then Some(length(a, b)) else LastLink(done, x, y, length) {
      LastLinkAppend(done, (a, b), x, y, length);
    }
  }

  /** The inner loop of the graph building over the nodes of one way:
      write each pair of consecutive nodes. */
  method SetWayLinks<P(==,!new)>(graph: map<P, map<P, nat>>, order: seq<P>, nodes: seq<P>,
                                 length: (P, P) -> nat, ghost done: seq<(P, P)>)
    returns (graph': map<P, map<P, nat>>, order': seq<P>)
    requires IsBuiltFrom(Graph(order, graph), done, length)
    ensures IsBuiltFrom(Graph(order', graph'), done + PairsOf(nodes), length)
  {
    graph', order' := graph, order;
    ghost var cur := done;
    var i := 0;
    while i < |nodes| - 1
      invariant |nodes| == 0 ==> i == 0 && cur == done
      invariant |nodes| > 0 ==> i < |nodes| && cur == done + PairsOf(nodes[..i + 1])
      invariant IsBuiltFrom(Graph(order', graph'), cur, length)
    {
      PairsPrefix(nodes, i);
      graph', order' := SetLink(graph', order', nodes[i], nodes[i + 1], length, cur);
      cur := cur + [(nodes[i], nodes[i + 1])];
      i := i + 1;
    }
    if |nodes| == 0 {
      assert done + PairsOf(nodes) == done;
    } else {
      assert nodes[..i + 1] == nodes;
    }
  }

  /** The graph-building part of `getGraphData(data)`: no elements, or an
      empty list of them, give the empty object; otherwise every segment of
      every way that has a geometry is written. */
  method GetGraphData<P(==,!new)>(elements: Option<seq<Way<P>>>, length: (P, P) -> nat) returns (g: Graph<P>)
    ensures elements.None? || elements.value == [] ==> g == Graph([], map[])
    ensures elements.Some? ==> IsBuiltFrom(g, Segments(elements.value), length)
  {
    if elements.None? || |elements.value| == 0 {
      return Graph([], map[]);
    }
    var ways := elements.value;
    var graph: map<P, map<P, nat>> := map[];
    var order: seq<P> := [];
    assert Endpoints<P>([]) == {};
    for k := 0 to |ways|
      invariant IsBuiltFrom(Graph(order, graph), Segments(ways[..k]), length)
    {
      SegmentsPrefix(ways, k);
      ghost var before, after := Segments(ways[..k]), Segments(ways[..k + 1]);
      var way := ways[k];
      if way.geometry.Some? {
        assert after == before + PairsOf(way.geometry.value);
        graph, order := SetWayLinks(graph, order, way.geometry.value, length, before);
      } else {
        assert after == before + [] == before;
      }
    }
    assert ways[..|ways|] == ways;
    g := Graph(order, graph);
  }

  /** Links are symmetric, weights included. */
  lemma {:induction false} LastLinkSymmetric<P>(segs: seq<(P, P)>, a: P, b: P, length: (P, P) -> nat)
    ensures LastLink(segs, a, b, length) == LastLink(segs, b, a, length)
  {
    if segs != [] {
      LastLinkSymmetric(segs[..|segs| - 1], a, b, length);
    }
  }

  /** Last write wins: `graph[a][b]` is the weight of a segment joining `a`
      and `b` after which no segment joins them; there is a link exactly when
      some segment joins them. */
  lemma {:induction false} LastLinkIsLastSegment<P>(segs: seq<(P, P)>, a: P, b: P, length: (P, P) -> nat)
    ensures LastLink(segs, a, b, length).Some? <==> exists i :: 0 <= i < |segs| && Joins(segs[i], a, b)
    ensures LastLink(segs, a, b, length).Some? ==>
              exists i :: && 0 <= i < |segs| && Joins(segs[i], a, b)
                          && LastLink(segs, a, b, length).value == length(segs[i].0, segs[i].1)
                          && forall j :: i < j < |segs| ==> !Joins(segs[j], a, b)
  {
    if segs != [] {
      var pre, s := segs[..|segs| - 1], segs[|segs| - 1];
      LastLinkIsLastSegment(pre, a, b, length);
      if Joins(s, a, b) {
        assert segs[|segs| - 1] == s;
      } else {
        if exists i :: 0 <= i < |segs| && Joins(segs[i], a, b) {
          var i :| 0 <= i < |segs| && Joins(segs[i], a, b);
          assert i < |pre| && pre[i] == segs[i];
        }
        if LastLink(pre, a, b, length).Some? {
          var i :| && 0 <= i < |pre| && Joins(pre[i], a, b)
                   && LastLink(pre, a, b, length).value == length(pre[i].0, pre[i].1)
                   && forall j :: i < j < |pre| ==> !Joins(pre[j], a, b);
          assert segs[i] == pre[i];
          assert forall j :: i < j < |segs| ==> !Joins(segs[j], a, b) by {
            forall j | i < j < |segs| ensures !Joins(segs[j], a, b) {
              if j < |pre| {
                assert segs[j] == pre[j];
              }
            }
          }
        }
      }
    }
  }

  /** The built graph is symmetric: `graph[a][b] == graph[b][a]`, and both
      endpoints of every link are keys. */
  lemma GraphSymmetric<P(!new)>(g: Graph<P>, segs: seq<(P, P)>, length: (P, P) -> nat, a: P, b: P)
    requires IsBuiltFrom(g, segs, length)
    requires a in g.adj && b in g.adj[a]
    ensures b in g.adj && a in g.adj[b] && g.adj[b][a] == g.adj[a][b]
  {
    assert IsRowOf(g.adj[a], segs, a, length);
    LastLinkSymmetric(segs, a, b, length);
    LastLinkIsLastSegment(segs, a, b, length);
    var i :| 0 <= i < |segs| && Joins(segs[i], a, b);
    assert b == segs[i].0 || b == segs[i].1;
    assert segs[i] in segs;
  }
}
