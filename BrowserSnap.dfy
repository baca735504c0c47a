/** Snapping a click to the road network in the browser copy
    (`findClosestPoint` and `projectPointOnLine` in public/script.js): the
    nearest recorded node if there is any node, otherwise the nearest
    projection of the click onto a segment of a recorded polyline. */
module BrowserSnap {
  import opened Common

  /** A Leaflet `LatLng`, in degrees. */
  datatype LatLng = LatLng(lat: real, lng: real)

  /** The point at parameter `s` on the line from `a` to `b`. */
  function Lerp(a: LatLng, b: LatLng, s: real): LatLng {
    LatLng(a.lat + s * (b.lat - a.lat), a.lng + s * (b.lng - a.lng))
  }

  /** `x` lies on the closed segment from `a` to `b`. */
  ghost predicate OnSegment(x: LatLng, a: LatLng, b: LatLng) {
    exists s :: 0.0 <= s <= 1.0 && x == Lerp(a, b, s)
  }

  /** No point of the segment from `a` to `b` is nearer to `q` than `x`. */
  ghost predicate NearestOnSegment(q: LatLng, x: LatLng, a: LatLng, b: LatLng) {
    forall s :: 0.0 <= s <= 1.0 ==> SqDist(q, x) <= SqDist(q, Lerp(a, b, s))
  }

  /** Squared Euclidean distance in the (lat, lng) plane. */
  function SqDist(p: LatLng, q: LatLng): (r: real)
    ensures r >= 0.0
  {
    (p.lat - q.lat) * (p.lat - q.lat) + (p.lng - q.lng) * (p.lng - q.lng)
  }

  /** The scalar product of `p - a` and `b - a`. */
  function DotFrom(a: LatLng, p: LatLng, b: LatLng): real {
    (p.lat - a.lat) * (b.lat - a.lat) + (p.lng - a.lng) * (b.lng - a.lng)
  }

  /** The ends of the segment are the points at parameters 0 and 1. */
  lemma LerpEnds(a: LatLng, b: LatLng)
    ensures Lerp(a, b, 0.0) == a && Lerp(a, b, 1.0) == b
  {
  }

  /** `lineVector.distanceTo([0, 0])`: the Leaflet distance `metres` from
      the difference vector of the segment, read as a point, to (0, 0). */
  function LineLength(lineStart: LatLng, lineEnd: LatLng, metres: (LatLng, LatLng) -> real): real {
    metres(LatLng(lineEnd.lat - lineStart.lat, lineEnd.lng - lineStart.lng), LatLng(0.0, 0.0))
  }

  /** `projectPointOnLine` as written, given the value of `lineLength`. The
      parameter `t` divides a product of degree differences by the square of
      that length, so whatever the length is, the clamping of `t` to [0, 1]
      keeps the result on the segment. */
  function ProjectPointOnLine(point: LatLng, lineStart: LatLng, lineEnd: LatLng, lineLength: real): (r: LatLng)
    ensures OnSegment(r, lineStart, lineEnd)
    ensures lineLength == 0.0 ==> r == lineStart
  {
    LerpEnds(lineStart, lineEnd);
    if lineLength == 0.0 then lineStart
    else
      var t := DotFrom(lineStart, point, lineEnd) / (lineLength * lineLength);
      if t < 0.0 then lineStart
      else if t > 1.0 then lineEnd
      else Lerp(lineStart, lineEnd, t)
  }

  /** The division by the square of a length in metres instead of the
      squared length in degrees: on the segment from (0, 0) to (0, 1), whose
      great-circle length is about 111 km, projecting the end point itself
      does not give the end point, for every length above 1. */
  lemma ProjectPointOnLineMissesEnd(lineLength: real)
    requires lineLength > 1.0
    ensures ProjectPointOnLine(LatLng(0.0, 1.0), LatLng(0.0, 0.0), LatLng(0.0, 1.0), lineLength) != LatLng(0.0, 1.0)
  {
    var t := 1.0 / (lineLength * lineLength);
    assert lineLength * lineLength > 1.0 by {
      assert lineLength * lineLength > lineLength * 1.0;
    }
    assert 0.0 < t < 1.0;
  }

  /** The evident intent of `projectPointOnLine`: the orthogonal projection
      onto the segment in the (lat, lng) plane, with `t` normalised by the
      squared length of the segment in the same units, clamped to the ends. */
  function ProjectOnSegment(point: LatLng, a: LatLng, b: LatLng): (r: LatLng)
    ensures OnSegment(r, a, b)
  {
    LerpEnds(a, b);
    if a == b then a
    else
      SqDistPositive(a, b);
      var t := DotFrom(a, point, b) / SqDist(b, a);
      if t < 0.0 then a
      else if t > 1.0 then b
      else Lerp(a, b, t)
  }

  lemma SquareNonNegative(x: real)
    ensures x * x >= 0.0
  {
    if x < 0.0 {
      assert x * x == (-x) * (-x);
    }
  }

  lemma SquarePositive(x: real)
    requires x != 0.0
    ensures x * x > 0.0
  {
    if x < 0.0 {
      assert x * x == (-x) * (-x);
    }
  }

  lemma SumSquaresPositive(x: real, y: real)
    requires x != 0.0 || y != 0.0
    ensures x * x + y * y > 0.0
  {
    SquareNonNegative(x);
    SquareNonNegative(y);
    if x != 0.0 {
      SquarePositive(x);
    } else {
      SquarePositive(y);
    }
  }

  lemma ProductNonNegative(x: real, y: real)
    requires x >= 0.0 && y >= 0.0
    ensures x * y >= 0.0
  {
  }

  lemma QuadraticExpand(wl: real, wg: real, vl: real, vg: real, s: real)
    ensures (wl - s * vl) * (wl - s * vl) + (wg - s * vg) * (wg - s * vg)
            == (wl * wl + wg * wg) - 2.0 * s * (wl * vl + wg * vg) + s * s * (vl * vl + vg * vg)
  {
  }

  /** The quadratic `W - 2 s D + s^2 V` with `V > 0` is smallest at
      `t = D / V`. */
  lemma QuadMinInterior(W: real, D: real, V: real, t: real, s: real)
    requires V > 0.0 && D == t * V
    ensures W - 2.0 * t * D + t * t * V <= W - 2.0 * s * D + s * s * V
  {
    SquareNonNegative(s - t);
    ProductNonNegative(V, (s - t) * (s - t));
    calc {
      (W - 2.0 * s * D + s * s * V) - (W - 2.0 * t * D + t * t * V);
      == V * ((s - t) * (s - t));
      >= 0.0;
    }
  }

  /** With `D < 0` it grows on `s >= 0`. */
  lemma QuadMinLeft(W: real, D: real, V: real, s: real)
    requires V >= 0.0 && D < 0.0 && s >= 0.0
    ensures W - 2.0 * 0.0 * D + 0.0 * 0.0 * V <= W - 2.0 * s * D + s * s * V
  {
    ProductNonNegative(s, -D);
    SquareNonNegative(s);
    ProductNonNegative(s * s, V);
  }

  /** With `D > V` it falls on [0, 1]. */
  lemma QuadMinRight(W: real, D: real, V: real, s: real)
    requires V > 0.0 && D > V && 0.0 <= s <= 1.0
    ensures W - 2.0 * 1.0 * D + 1.0 * 1.0 * V <= W - 2.0 * s * D + s * s * V
  {
    ProductNonNegative(V, 1.0 - s);
    ProductNonNegative(1.0 - s, 2.0 * D - V * (1.0 + s));
    calc {
      (W - 2.0 * s * D + s * s * V) - (W - 2.0 * 1.0 * D + 1.0 * 1.0 * V);
      == (1.0 - s) * (2.0 * D - V * (1.0 + s));
      >= 0.0;
    }
  }
  /** On [0, 1], the quadratic `W - 2 s D + s^2 V` with `V > 0` is smallest
      at `D / V` clamped to [0, 1]. */
  lemma QuadMinClamped(W: real, D: real, V: real, r0: real, s: real)
    requires V > 0.0 && 0.0 <= s <= 1.0
    requires || (r0 == 0.0 && D < 0.0)
             || (r0 == 1.0 && D > V)
             || D == r0 * V
    ensures W - 2.0 * r0 * D + r0 * r0 * V <= W - 2.0 * s * D + s * s * V
  {
    if r0 == 0.0 && D < 0.0 {
      QuadMinLeft(W, D, V, s);
    } else if r0 == 1.0 && D > V {
      QuadMinRight(W, D, V, s);
    } else {
      QuadMinInterior(W, D, V, r0, s);
    }
  }

  /** Distinct ends give a segment of positive length. */
  lemma SqDistPositive(a: LatLng, b: LatLng)
    requires a != b
    ensures SqDist(b, a) > 0.0
  {
    var x, y := b.lat - a.lat, b.lng - a.lng;
    SumSquaresPositive(x, y);
    calc {
      SqDist(b, a);
      == x * x + y * y;
      > 0.0;
    }
  }

  lemma SqDistLerpOffsets(p: LatLng, a: LatLng, b: LatLng, s: real)
    ensures SqDist(p, Lerp(a, b, s))
            == (p.lat - a.lat - s * (b.lat - a.lat)) * (p.lat - a.lat - s * (b.lat - a.lat))
               + (p.lng - a.lng - s * (b.lng - a.lng)) * (p.lng - a.lng - s * (b.lng - a.lng))
  {
    var x := Lerp(a, b, s);
    assert p.lat - x.lat == p.lat - a.lat - s * (b.lat - a.lat);
    assert p.lng - x.lng == p.lng - a.lng - s * (b.lng - a.lng);
  }

  lemma QuadraticOffsets(p: LatLng, a: LatLng, b: LatLng, s: real)
    ensures SqDist(p, a) - 2.0 * s * DotFrom(a, p, b) + s * s * SqDist(b, a)
            == ((p.lat - a.lat) * (p.lat - a.lat) + (p.lng - a.lng) * (p.lng - a.lng))
               - 2.0 * s * ((p.lat - a.lat) * (b.lat - a.lat) + (p.lng - a.lng) * (b.lng - a.lng))
               + s * s * ((b.lat - a.lat) * (b.lat - a.lat) + (b.lng - a.lng) * (b.lng - a.lng))
  {
  }

  /** The squared distance from `p` to the point at `s` is the quadratic
      `|p - a|^2 - 2 s <p - a, b - a> + s^2 |b - a|^2`. */
  lemma SqDistLerp(p: LatLng, a: LatLng, b: LatLng, s: real)
    ensures SqDist(p, Lerp(a, b, s)) == SqDist(p, a) - 2.0 * s * DotFrom(a, p, b) + s * s * SqDist(b, a)
  {
    SqDistLerpOffsets(p, a, b, s);
    QuadraticExpand(p.lat - a.lat, p.lng - a.lng, b.lat - a.lat, b.lng - a.lng, s);
    QuadraticOffsets(p, a, b, s);
  }

  /** Off a degenerate segment, the projection is the point at the
      clamped parameter `D / V`. */
  lemma ProjectionParameter(point: LatLng, a: LatLng, b: LatLng) returns (r0: real)
    requires a != b
    ensures 0.0 <= r0 <= 1.0 && ProjectOnSegment(point, a, b) == Lerp(a, b, r0)
    ensures var V, D := SqDist(b, a), DotFrom(a, point, b);
            || (r0 == 0.0 && D < 0.0)
            || (r0 == 1.0 && D > V)
            || D == r0 * V
  {
    var V, D := SqDist(b, a), DotFrom(a, point, b);
    SqDistPositive(a, b);
    QuotientBounds(D, V);
    LerpEnds(a, b);
    var t := D / V;
    r0 := if t < 0.0 then 0.0 else if t > 1.0 then 1.0 else t;
  }

  /** The sign and size of a quotient by a positive number. */
  lemma QuotientBounds(D: real, V: real)
    requires V > 0.0
    ensures D / V < 0.0 ==> D < 0.0
    ensures D / V > 1.0 ==> D > V
    ensures D == (D / V) * V
  {
  }

  /** The point at the clamped parameter `r0` is no farther from `point`
      than the point at any parameter `s` in [0, 1]. */
  lemma ClampedNearerThan(point: LatLng, a: LatLng, b: LatLng, r0: real, s: real)
    requires SqDist(b, a) > 0.0 && 0.0 <= s <= 1.0
    requires var V, D := SqDist(b, a), DotFrom(a, point, b);
             || (r0 == 0.0 && D < 0.0)
             || (r0 == 1.0 && D > V)
             || D == r0 * V
    ensures SqDist(point, Lerp(a, b, r0)) <= SqDist(point, Lerp(a, b, s))
  {
    SqDistLerp(point, a, b, r0);
    SqDistLerp(point, a, b, s);
    QuadMinClamped(SqDist(point, a), DotFrom(a, point, b), SqDist(b, a), r0, s);
  }

  /** No point of the segment is nearer to `point` than its projection. */
  lemma ProjectionNearerThan(point: LatLng, a: LatLng, b: LatLng, s: real)
    requires 0.0 <= s <= 1.0
    ensures SqDist(point, ProjectOnSegment(point, a, b)) <= SqDist(point, Lerp(a, b, s))
  {
    if a == b {
      assert Lerp(a, b, s) == a;
    } else {
      SqDistPositive(a, b);
      var r0 := ProjectionParameter(point, a, b);
      ClampedNearerThan(point, a, b, r0, s);
    }
  }

  /** The projection lies on the segment and no point of the segment is
      nearer to `point`. */
  lemma ProjectOnSegmentIsNearest(point: LatLng, a: LatLng, b: LatLng)
    ensures OnSegment(ProjectOnSegment(point, a, b), a, b)
    ensures NearestOnSegment(point, ProjectOnSegment(point, a, b), a, b)
  {
    forall s | 0.0 <= s <= 1.0
      ensures SqDist(point, ProjectOnSegment(point, a, b)) <= SqDist(point, Lerp(a, b, s))
    {
      ProjectionNearerThan(point, a, b, s);
    }
  }

  /** The ends of a segment project onto themselves. */
  lemma ProjectOnSegmentEnds(a: LatLng, b: LatLng)
    ensures ProjectOnSegment(a, a, b) == a
    ensures ProjectOnSegment(b, a, b) == b
  {
    LerpEnds(a, b);
    if a != b {
      var V := SqDist(b, a);
      SqDistPositive(a, b);
      assert DotFrom(a, a, b) == 0.0;
      calc {
        DotFrom(a, b, b) / V;
        == V / V;
        == 1.0;
      }
    }
  }

  /** `lineLength` is the length of the segment from `a` to `b` in the
      units of its coordinates (up to sign). */
  ghost predicate PlaneLength(a: LatLng, b: LatLng, lineLength: real) {
    lineLength * lineLength == SqDist(b, a)
  }

  /** With the length of the segment in the units of its coordinates,
      `projectPointOnLine` is the nearest-point projection: the division by
      the square of the length is all that separates the two. */
  lemma ProjectPointOnLinePlaneLength(point: LatLng, a: LatLng, b: LatLng, lineLength: real)
    requires PlaneLength(a, b, lineLength)
    ensures ProjectPointOnLine(point, a, b, lineLength) == ProjectOnSegment(point, a, b)
  {
    if a == b {
      // every parameter picks the single point of a degenerate segment
      assert DotFrom(a, point, b) == 0.0;
    } else {
      SqDistPositive(a, b);
    }
  }

  /** The point `findClosestPoint` takes for the segment from `a` to `b`:
      `projectPointOnLine(clickedPoint, pointA, pointB)`, with the length of
      the segment measured by `metres`. */
  function Projected(q: LatLng, a: LatLng, b: LatLng, metres: (LatLng, LatLng) -> real): LatLng {
    ProjectPointOnLine(q, a, b, LineLength(a, b, metres))
  }

  /** The projections of the click onto the segments of one polyline, in
      order. */
  function LineProjections(q: LatLng, line: seq<LatLng>, metres: (LatLng, LatLng) -> real): (r: seq<LatLng>)
    ensures |r| == if |line| < 2 then 0 else |line| - 1
  {
    if |line| < 2 then []
    else LineProjections(q, line[..|line| - 1], metres) + [Projected(q, line[|line| - 2], line[|line| - 1], metres)]
  }

  /** The projections of the click onto every segment of every polyline, in
      the order `findClosestPoint` visits them. */
  function Projections(q: LatLng, lines: seq<seq<LatLng>>, metres: (LatLng, LatLng) -> real): seq<LatLng> {
    if lines == [] then []
    else Projections(q, lines[..|lines| - 1], metres) + LineProjections(q, lines[|lines| - 1], metres)
  }

  /** The projection visited for the `i`-th segment of a polyline is the
      point `projectPointOnLine` gives for that segment, and lies on it. */
  lemma {:induction false} LineProjectionsAt(q: LatLng, line: seq<LatLng>, metres: (LatLng, LatLng) -> real, i: nat)
    requires i + 1 < |line|
    ensures LineProjections(q, line, metres)[i] == Projected(q, line[i], line[i + 1], metres)
    ensures OnSegment(LineProjections(q, line, metres)[i], line[i], line[i + 1])
    decreases |line|
  {
    if i + 2 < |line| {
      var pre := line[..|line| - 1];
      LineProjectionsAt(q, pre, metres, i);
      assert pre[i] == line[i] && pre[i + 1] == line[i + 1];
    }
  }

  /** Where `metres` measures a segment in the units of its coordinates, the
      projection visited for it is the point of the segment nearest to the
      click. */
  lemma LineProjectionsNearest(q: LatLng, line: seq<LatLng>, metres: (LatLng, LatLng) -> real, i: nat)
    requires i + 1 < |line|
    requires PlaneLength(line[i], line[i + 1], LineLength(line[i], line[i + 1], metres))
    ensures LineProjections(q, line, metres)[i] == ProjectOnSegment(q, line[i], line[i + 1])
    ensures NearestOnSegment(q, LineProjections(q, line, metres)[i], line[i], line[i + 1])
  {
    var a, b := line[i], line[i + 1];
    LineProjectionsAt(q, line, metres, i);
    ProjectPointOnLinePlaneLength(q, a, b, LineLength(a, b, metres));
    ProjectOnSegmentIsNearest(q, a, b);
  }

  lemma LineProjectionsPrefix(q: LatLng, line: seq<LatLng>, metres: (LatLng, LatLng) -> real, i: nat)
    requires i + 1 < |line|
    ensures LineProjections(q, line[..i + 2], metres)
            == LineProjections(q, line[..i + 1], metres) + [Projected(q, line[i], line[i + 1], metres)]
  {
    assert line[..i + 2][..i + 1] == line[..i + 1];
  }

  lemma ProjectionsPrefix(q: LatLng, lines: seq<seq<LatLng>>, metres: (LatLng, LatLng) -> real, k: nat)
    requires k < |lines|
    ensures Projections(q, lines[..k + 1], metres) == Projections(q, lines[..k], metres) + LineProjections(q, lines[k], metres)
  {
    assert lines[..k + 1][..k] == lines[..k];
  }

  /** The first loop of `findClosestPoint`: the first of the nodes nearest
      to the click, none without nodes. */
  method ClosestNode(clicked: LatLng, nodes: seq<LatLng>, d: (LatLng, LatLng) -> real)
    returns (closestNode: Option<LatLng>)
    ensures closestNode.None? <==> nodes == []
    ensures nodes != [] ==> exists k :: IsFirstNearest(d, clicked, nodes, k) && closestNode == Some(nodes[k])
  {
    // `None` stands for a closest distance of `Infinity`: anything is nearer
    closestNode := None;
    var closestDistance: real := 0.0;
    ghost var best := 0;
    for k := 0 to |nodes|
      invariant closestNode.None? <==> k == 0
      invariant k > 0 ==> && IsFirstNearest(d, clicked, nodes[..k], best)
                          && closestNode == Some(nodes[best]) && closestDistance == d(clicked, nodes[best])
    {
      var distance := d(clicked, nodes[k]);
      FirstNearestAppend(d, clicked, nodes[..k], best, nodes[k]);
      assert nodes[..k + 1] == nodes[..k] + [nodes[k]];
      if closestNode.None? || distance < closestDistance {
        closestDistance := distance;
        closestNode := Some(nodes[k]);
        best := k;
      }
    }
    assert nodes[..|nodes|] == nodes;
  }

  /** The inner loop of the second loop of `findClosestPoint`, over the
      segments of one polyline: project the click onto each segment and keep
      the projection when it is strictly nearer than the point kept. */
  method ScanLine(clicked: LatLng, line: seq<LatLng>, d: (LatLng, LatLng) -> real,
                  metres: (LatLng, LatLng) -> real,
                  kept: Option<LatLng>, keptDistance: real, ghost seen: seq<LatLng>, ghost best: int)
    returns (kept': Option<LatLng>, keptDistance': real, ghost best': int)
    requires BestSoFar(d, clicked, seen, best, kept, keptDistance)
    ensures BestSoFar(d, clicked, seen + LineProjections(clicked, line, metres), best', kept', keptDistance')
  {
    kept', keptDistance', best' := kept, keptDistance, best;
    ghost var cur := seen;
    var i := 0;
    while i < |line| - 1
      invariant |line| == 0 ==> i == 0 && cur == seen
      invariant |line| > 0 ==> i < |line| && cur == seen + LineProjections(clicked, line[..i + 1], metres)
      invariant BestSoFar(d, clicked, cur, best', kept', keptDistance')
    {
      var lineLength := LineLength(line[i], line[i + 1], metres);
      var projectedPoint := ProjectPointOnLine(clicked, line[i], line[i + 1], lineLength);
      var distance := d(clicked, projectedPoint);
      LineProjectionsPrefix(clicked, line, metres, i);
      FirstNearestAppend(d, clicked, cur, best', projectedPoint);
      if kept'.None? || distance < keptDistance' {
        keptDistance' := distance;
        kept' := Some(projectedPoint);
        best' := |cur|;
      }
      cur := cur + [projectedPoint];
      i := i + 1;
    }
    if |line| == 0 {
      assert cur == seen + LineProjections(clicked, line, metres);
    } else {
      assert line[..i + 1] == line;
    }
  }

  /** The second loop of `findClosestPoint`: the first of the projections
      nearest to the click, none when no polyline has a segment. */
  method ClosestLinePoint(clicked: LatLng, lines: seq<seq<LatLng>>, d: (LatLng, LatLng) -> real,
                          metres: (LatLng, LatLng) -> real)
    returns (closestLinePoint: Option<LatLng>)
    ensures closestLinePoint.None? <==> Projections(clicked, lines, metres) == []
    ensures closestLinePoint.Some? ==>
              exists k :: IsFirstNearest(d, clicked, Projections(clicked, lines, metres), k)
                          && closestLinePoint.value == Projections(clicked, lines, metres)[k]
  {
    closestLinePoint := None;
    var closestDistance: real := 0.0;
    ghost var best := 0;
    for k := 0 to |lines|
      invariant BestSoFar(d, clicked, Projections(clicked, lines[..k], metres), best, closestLinePoint, closestDistance)
    {
      ProjectionsPrefix(clicked, lines, metres, k);
      closestLinePoint, closestDistance, best :=
        ScanLine(clicked, lines[k], d, metres, closestLinePoint, closestDistance, Projections(clicked, lines[..k], metres), best);
    }
    assert lines[..|lines|] == lines;
  }

  /** The state of a nearest-point scan after visiting `seen`: no point kept
      exactly when none was visited; otherwise the kept point is the first
      nearest one visited, with its distance. */
  ghost predicate BestSoFar<P>(d: (P, P) -> real, q: P, seen: seq<P>, best: int, kept: Option<P>, keptDistance: real) {
    && (kept.None? <==> seen == [])
    && (seen != [] ==> IsFirstNearest(d, q, seen, best) && kept == Some(seen[best]) && keptDistance == d(q, seen[best]))
  }

  /** `findClosestPoint(clickedPoint)` over the recorded `nodes` and polyline
      `lines`, with `d` the on-screen distance `getDistance` and `metres`
      Leaflet's `distanceTo`, which measures the segments. A node wins
      whenever there is one, since `closestNode || closestLinePoint` keeps any
      node found; then the first nearest one is taken. Without nodes, the
      first nearest projection is taken, and there is none exactly when no
      polyline has a segment. */
  method FindClosestPoint(clicked: LatLng, nodes: seq<LatLng>, lines: seq<seq<LatLng>>,
                          d: (LatLng, LatLng) -> real, metres: (LatLng, LatLng) -> real)
    returns (r: Option<LatLng>)
    ensures nodes != [] ==> exists k :: IsFirstNearest(d, clicked, nodes, k) && r == Some(nodes[k])
    ensures nodes == [] ==> (r == None <==> Projections(clicked, lines, metres) == [])
    ensures nodes == [] && r.Some? ==>
              exists k :: IsFirstNearest(d, clicked, Projections(clicked, lines, metres), k)
                          && r.value == Projections(clicked, lines, metres)[k]
  {
    var closestNode := ClosestNode(clicked, nodes, d);
    var closestLinePoint := ClosestLinePoint(clicked, lines, d, metres);
    r := if closestNode.Some? then closestNode else closestLinePoint;
  }
}
