/** Shared vocabulary of both copies of the routing engine: ways as they come
    from the geodata feed, their segments, distances with infinity, and the
    "first nearest wins" rule of the linear scans. */
module Common {

  datatype Option<T> = None | Some(value: T)

  /** One element of the feed: a way whose geometry may be missing. */
  datatype Way<P> = Way(geometry: Option<seq<P>>)

  /** A tentative distance: a finite value or `Infinity`. */
  datatype Dist = Fin(n: nat) | Inf

  /** `d + w`, where `Infinity + w` stays `Infinity`: adding a length never
      makes a distance shorter, and the sum is finite exactly when `d` is. */
  function Plus(d: Dist, w: nat): (r: Dist)
    ensures AtMost(d, r)
    ensures r.Fin? <==> d.Fin?
  {
    if d.Inf? then Inf else Fin(d.n + w)
  }

  /** The strict comparison `a < b`; `Infinity < Infinity` is false. */
  predicate Below(a: Dist, b: Dist) {
    a.Fin? && (b.Inf? || a.n < b.n)
  }

  /** `a <= b`. */
  predicate AtMost(a: Dist, b: Dist) {
    b.Inf? || (a.Fin? && a.n <= b.n)
  }

  /** Adding the same length keeps the order of two distances, strict and
      non-strict, and adding two lengths in turn adds their sum. */
  lemma PlusMonotone(d: Dist, e: Dist, w: nat, w': nat)
    ensures AtMost(d, e) ==> AtMost(Plus(d, w), Plus(e, w))
    ensures Below(d, e) ==> Below(Plus(d, w), Plus(e, w))
    ensures Plus(Plus(d, w), w') == Plus(d, w + w')
  {
  }

  /** The consecutive pairs `(p[i], p[i+1])` of a polyline; fewer than two
      points give none. */
  function PairsOf<P>(pts: seq<P>): (r: seq<(P, P)>)
    ensures |r| == if |pts| < 2 then 0 else |pts| - 1
    ensures forall i :: 0 <= i < |r| ==> r[i] == (pts[i], pts[i + 1])
  {
    if |pts| < 2 then [] else PairsOf(pts[..|pts| - 1]) + [(pts[|pts| - 2], pts[|pts| - 1])]
  }

  /** The segments one way contributes: none without geometry. */
  function SegmentsOf<P>(w: Way<P>): seq<(P, P)> {
    match w.geometry
    case None => []
    case Some(pts) => PairsOf(pts)
  }

  /** All segments of a feed, way after way, in order. */
  function Segments<P>(ways: seq<Way<P>>): seq<(P, P)> {
    if ways == [] then [] else Segments(ways[..|ways| - 1]) + SegmentsOf(ways[|ways| - 1])
  }

  /** The points that are an endpoint of some segment. */
  ghost function Endpoints<P>(segs: seq<(P, P)>): set<P> {
    (set s | s in segs :: s.0) + (set s | s in segs :: s.1)
  }

  lemma EndpointsAppend<P>(segs: seq<(P, P)>, s: (P, P))
    ensures Endpoints(segs + [s]) == Endpoints(segs) + {s.0, s.1}
  {
  }

  /** The segment `s` joins `a` and `b`, in either direction. */
  predicate Joins<P(==)>(s: (P, P), a: P, b: P) {
    s == (a, b) || s == (b, a)
  }

  /** Appends `x` unless it is already present: how a key joins an object. */
  function AddKey<P(==)>(order: seq<P>, x: P): seq<P> {
    if x in order then order else order + [x]
  }

  /** The keys of a graph built from `segs`, in insertion order: for each
      segment its start point, then its end point. */
  function KeyOrder<P(==)>(segs: seq<(P, P)>): seq<P> {
    if segs == [] then []
    else
      var s := segs[|segs| - 1];
      AddKey(AddKey(KeyOrder(segs[..|segs| - 1]), s.0), s.1)
  }

  ghost predicate Distinct<P>(s: seq<P>) {
    forall i, j :: 0 <= i < j < |s| ==> s[i] != s[j]
  }

  lemma AddKeyLists<P>(order: seq<P>, x: P)
    requires Distinct(order)
    ensures Distinct(AddKey(order, x))
    ensures (set k | k in AddKey(order, x)) == (set k | k in order) + {x}
  {
  }

  /** The insertion order lists every endpoint exactly once. */
  lemma {:induction false} KeyOrderLists<P>(segs: seq<(P, P)>)
    ensures Distinct(KeyOrder(segs))
    ensures (set k | k in KeyOrder(segs)) == Endpoints(segs)
  {
    if segs != [] {
      var pre, s := segs[..|segs| - 1], segs[|segs| - 1];
      KeyOrderLists(pre);
      var o := KeyOrder(pre);
      AddKeyLists(o, s.0);
      AddKeyLists(AddKey(o, s.0), s.1);
      assert segs == pre + [s];
      EndpointsAppend(pre, s);
    }
  }

  /** A list without repetitions holds each of its elements once. */
  lemma {:induction false} DistinctCounts<P>(s: seq<P>)
    requires Distinct(s)
    ensures forall x :: multiset(s)[x] == if x in s then 1 else 0
  {
    if s != [] {
      var pre, k := s[..|s| - 1], s[|s| - 1];
      assert s == pre + [k];
      DistinctCounts(pre);
      assert k !in pre;
    }
  }

  /** `s` is a pair of consecutive points of the geometry of `w`. */
  ghost predicate IsPairOf<P>(w: Way<P>, s: (P, P)) {
    w.geometry.Some? && exists i :: 0 <= i < |w.geometry.value| - 1 && s == (w.geometry.value[i], w.geometry.value[i + 1])
  }

  lemma SegmentsOfMembers<P>(w: Way<P>, s: (P, P))
    ensures s in SegmentsOf(w) <==> IsPairOf(w, s)
  {
    if w.geometry.Some? {
      var pts := w.geometry.value;
      if s in PairsOf(pts) {
        var i :| 0 <= i < |PairsOf(pts)| && PairsOf(pts)[i] == s;
        assert 0 <= i < |pts| - 1 && s == (pts[i], pts[i + 1]);
      }
      if IsPairOf(w, s) {
        var i :| 0 <= i < |pts| - 1 && s == (pts[i], pts[i + 1]);
        assert PairsOf(pts)[i] == s;
      }
    }
  }

  /** The segments of a feed are exactly the consecutive point pairs of the
      ways that have a geometry: a way without geometry, or with fewer than
      two points, contributes nothing. */
  lemma {:induction false} SegmentsMembers<P>(ways: seq<Way<P>>, s: (P, P))
    ensures s in Segments(ways) <==> exists k :: 0 <= k < |ways| && IsPairOf(ways[k], s)
  {
    if ways != [] {
      var pre, w := ways[..|ways| - 1], ways[|ways| - 1];
      SegmentsMembers(pre, s);
      SegmentsOfMembers(w, s);
      if exists k :: 0 <= k < |pre| && IsPairOf(pre[k], s) {
        var k :| 0 <= k < |pre| && IsPairOf(pre[k], s);
        assert ways[k] == pre[k];
      }
      if exists k :: 0 <= k < |ways| && IsPairOf(ways[k], s) {
        var k :| 0 <= k < |ways| && IsPairOf(ways[k], s);
        if k < |pre| {
          assert pre[k] == ways[k];
        }
      }
    }
  }

  /** How the keys of a graph and their order grow with one more segment. */
  lemma KeysStep<P>(keys: set<P>, order: seq<P>, done: seq<(P, P)>, a: P, b: P)
    requires order == KeyOrder(done) && keys == Endpoints(done)
    ensures KeyOrder(done + [(a, b)]) == AddKey(AddKey(order, a), b)
    ensures Endpoints(done + [(a, b)]) == keys + {a, b}
    ensures (a in order <==> a in keys) && (b in AddKey(order, a) <==> b in keys + {a})
  {
    KeyOrderLists(done);
    assert (done + [(a, b)])[..|done|] == done;
    EndpointsAppend(done, (a, b));
  }

  /** Splitting the feed after `k` ways splits its segments the same way. */
  lemma SegmentsPrefix<P>(ways: seq<Way<P>>, k: nat)
    requires k < |ways|
    ensures Segments(ways[..k + 1]) == Segments(ways[..k]) + SegmentsOf(ways[k])
  {
    assert ways[..k + 1][..k] == ways[..k];
  }

  /** Splitting a polyline after point `i + 1` adds the segment `(p[i], p[i+1])`. */
  lemma PairsPrefix<P>(pts: seq<P>, i: nat)
    requires i + 1 < |pts|
    ensures PairsOf(pts[..i + 2]) == PairsOf(pts[..i + 1]) + [(pts[i], pts[i + 1])]
  {
    assert pts[..i + 2][..i + 1] == pts[..i + 1];
  }

  /** Total weight of a list of edge weights. */
  function Sum(ws: seq<nat>): nat {
    if ws == [] then 0 else Sum(ws[..|ws| - 1]) + ws[|ws| - 1]
  }

  lemma {:induction false} SumCons(w: nat, ws: seq<nat>)
    ensures Sum([w] + ws) == w + Sum(ws)
  {
    if ws != [] {
      var pre := ws[..|ws| - 1];
      assert ([w] + ws)[..|ws|] == [w] + pre;
      SumCons(w, pre);
    }
  }

  lemma SumPrefix(ws: seq<nat>, k: nat)
    requires k < |ws|
    ensures Sum(ws[..k + 1]) == Sum(ws[..k]) + ws[k]
  {
    assert ws[..k + 1][..k] == ws[..k];
  }

  /** `x` inserted before the first element whose key is not below its own. */
  function InsertBy<T>(x: T, s: seq<T>, key: T -> Dist): (r: seq<T>)
    ensures multiset(r) == multiset(s) + multiset{x}
  {
    if s == [] || AtMost(key(x), key(s[0])) then [x] + s
    else
      assert s == [s[0]] + s[1..];
      [s[0]] + InsertBy(x, s[1..], key)
  }

  /** `q.sort((a, b) => key(a) - key(b))`, as an insertion sort that puts
      each element before the later ones of equal key. Equal infinite keys
      compare as equal, as `Infinity - Infinity` is `NaN`, which `sort` reads
      as 0. */
  function SortBy<T>(q: seq<T>, key: T -> Dist): (r: seq<T>)
    ensures multiset(r) == multiset(q)
  {
    if q == [] then []
    else
      assert q == [q[0]] + q[1..];
      InsertBy(q[0], SortBy(q[1..], key), key)
  }

  ghost predicate SortedBy<T>(s: seq<T>, key: T -> Dist) {
    forall i, j :: 0 <= i < j < |s| ==> AtMost(key(s[i]), key(s[j]))
  }

  lemma {:induction false} InsertBySorted<T>(x: T, s: seq<T>, key: T -> Dist)
    requires SortedBy(s, key)
    ensures SortedBy(InsertBy(x, s, key), key)
  {
    if s != [] && !AtMost(key(x), key(s[0])) {
      var rest := InsertBy(x, s[1..], key);
      assert SortedBy(s[1..], key) by {
        forall i, j | 0 <= i < j < |s[1..]| ensures AtMost(key(s[1..][i]), key(s[1..][j])) {
          assert s[1..][i] == s[i + 1] && s[1..][j] == s[j + 1];
        }
      }
      InsertBySorted(x, s[1..], key);
      // every element of `rest` is `x` or an element of `s[1..]`, all keyed at least `key(s[0])`
      forall y | y in rest ensures AtMost(key(s[0]), key(y)) {
        assert y in multiset(rest);
        if y != x {
          assert y in multiset(s[1..]);
          var j :| 0 <= j < |s[1..]| && s[1..][j] == y;
          assert s[j + 1] == y;
        }
      }
      var r := [s[0]] + rest;
      forall i, j | 0 <= i < j < |r| ensures AtMost(key(r[i]), key(r[j])) {
        if i == 0 {
          assert r[j] == rest[j - 1];
          assert r[j] in rest;
        } else {
          assert r[i] == rest[i - 1] && r[j] == rest[j - 1];
        }
      }
    }
  }

  /** The sort orders by key, and its first element has the least key. */
  lemma {:induction false} SortBySorted<T>(q: seq<T>, key: T -> Dist)
    ensures SortedBy(SortBy(q, key), key)
  {
    if q != [] {
      SortBySorted(q[1..], key);
      InsertBySorted(q[0], SortBy(q[1..], key), key);
    }
  }

  /** `pts[i]` is at minimal distance `d(q, _)` among `pts`, and strictly
      nearer than every point before it: a scan with a strict `<` keeps the
      first of several equally near points. */
  ghost predicate IsFirstNearest<Q, P>(d: (Q, P) -> real, q: Q, pts: seq<P>, i: int) {
    && 0 <= i < |pts|
    && (forall j :: 0 <= j < |pts| ==> d(q, pts[i]) <= d(q, pts[j]))
    && (forall j :: 0 <= j < i ==> d(q, pts[i]) < d(q, pts[j]))
  }

  /** One step of such a scan: a new point replaces the best one so far
      exactly when it is strictly nearer. */
  lemma FirstNearestAppend<Q, P>(d: (Q, P) -> real, q: Q, pts: seq<P>, i: int, x: P)
    requires pts == [] || IsFirstNearest(d, q, pts, i)
    ensures pts == [] ==> IsFirstNearest(d, q, pts + [x], 0)
    ensures pts != [] && d(q, x) < d(q, pts[i]) ==> IsFirstNearest(d, q, pts + [x], |pts|)
    ensures pts != [] && !(d(q, x) < d(q, pts[i])) ==> IsFirstNearest(d, q, pts + [x], i)
  {
    var s := pts + [x];
    if pts != [] && d(q, x) < d(q, pts[i]) {
      forall j | 0 <= j < |s| ensures d(q, s[|pts|]) <= d(q, s[j]) {
        if j < |pts| {
          assert s[j] == pts[j];
        }
      }
    }
  }
}
