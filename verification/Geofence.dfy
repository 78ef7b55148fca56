/**
 * Ray casting and GeoJSON conversion of src/geofence.py, over exact reals. An edge whose denominator is
 * zero makes the division of the source raise, which `None` stands for.
 */
module Geofence {
  import opened ByteStrings

  datatype Point = Point(lat: real, lon: real)

  const EPSILON: real := 0.000000000001

  /** The edge from `prev` to `cur` passes from one side of the point's meridian to the other. */
  predicate Straddles(p: Point, prev: Point, cur: Point)
  {
    (cur.lon > p.lon) != (prev.lon > p.lon)
  }

  function Denominator(prev: Point, cur: Point): real
  {
    prev.lon - cur.lon + EPSILON
  }

  /** Where the edge meets the point's meridian. */
  function CrossingLat(p: Point, prev: Point, cur: Point): real
    requires Denominator(prev, cur) != 0.0
  {
    (prev.lat - cur.lat) * (p.lon - cur.lon) / Denominator(prev, cur) + cur.lat
  }

  /** Whether the ray upwards from the point meets the edge. */
  function Crosses(p: Point, prev: Point, cur: Point): Option<bool>
  {
    if !Straddles(p, prev, cur) then Some(false)
    else if Denominator(prev, cur) == 0.0 then None
    else Some(p.lat < CrossingLat(p, prev, cur))
  }

  function Flip(a: Option<bool>, b: Option<bool>): Option<bool>
  {
    if a.None? || b.None? then None else Some(a.value != b.value)
  }

  /** Parity of the crossings along the path from `prev` through the vertices. */
  function Parity(p: Point, prev: Point, path: seq<Point>): Option<bool>
    decreases |path|
  {
    if path == [] then Some(false) else Flip(Crosses(p, prev, path[0]), Parity(p, path[0], path[1..]))
  }

  /** Parity of the crossings around the ring; the edge into the first vertex comes from the last. */
  function Inside(p: Point, ring: seq<Point>): Option<bool>
  {
    if ring == [] then Some(false) else Parity(p, ring[|ring| - 1], ring)
  }

  function Last(prev: Point, path: seq<Point>): Point
  {
    if path == [] then prev else path[|path| - 1]
  }

  lemma {:induction false} ParityAppend(p: Point, prev: Point, a: seq<Point>, b: seq<Point>)
    ensures Parity(p, prev, a + b) == Flip(Parity(p, prev, a), Parity(p, Last(prev, a), b))
    decreases |a|
  {
    if a == [] {
      assert a + b == b;
    } else {
      assert (a + b)[0] == a[0] && (a + b)[1..] == a[1..] + b;
      ParityAppend(p, a[0], a[1..], b);
    }
  }

  /** The test of one edge. */
  method MeetsEdge(p: Point, prev: Point, cur: Point) returns (r: Option<bool>)
    ensures r == Crosses(p, prev, cur)
  {
    if (cur.lon > p.lon) == (prev.lon > p.lon) {
      return Some(false);
    }
    if Denominator(prev, cur) == 0.0 {
      return None;
    }
    return Some(p.lat < CrossingLat(p, prev, cur));
  }

  lemma ParityStep(p: Point, prev: Point, polygon: seq<Point>, i: nat, inside: bool)
    requires i < |polygon|
    ensures Flip(Some(inside), Parity(p, prev, polygon[i..])) ==
      Flip(Flip(Some(inside), Crosses(p, prev, polygon[i])), Parity(p, polygon[i], polygon[i + 1..]))
  {
    assert polygon[i..][0] == polygon[i] && polygon[i..][1..] == polygon[i + 1..];
  }

  /** The loop of `point_in_polygon`. */
  method PointInPolygon(p: Point, polygon: seq<Point>) returns (r: Option<bool>)
    ensures r == Inside(p, polygon)
  {
    var inside := false;
    var j := |polygon| - 1;
    for i := 0 to |polygon|
      invariant j == if i == 0 then |polygon| - 1 else i - 1
      invariant i == 0 ==> !inside
      invariant polygon != [] ==> Inside(p, polygon) == Flip(Some(inside), Parity(p, polygon[j], polygon[i..]))
    {
      ParityStep(p, polygon[j], polygon, i, inside);
      var intersect := MeetsEdge(p, polygon[j], polygon[i]);
      if intersect == None {
        return None;
      }
      if intersect.value {
        inside := !inside;
      }
      j := i;
    }
    assert polygon[|polygon|..] == [];
    return Some(inside);
  }

  // ----- edges by orientation, without a division -----

  /** Positive when the point lies below an edge towards smaller longitudes, or above one towards larger. */
  function Side(p: Point, prev: Point, cur: Point): real
  {
    (prev.lat - cur.lat) * (p.lon - cur.lon) - (p.lat - cur.lat) * (prev.lon - cur.lon)
  }

  lemma QuotientAbove(h: real, n: real, d: real)
    requires d != 0.0
    ensures h < n / d <==> if d > 0.0 then h * d < n else n < h * d
  {
    var q := n / d;
    assert q * d == n;
    if d > 0.0 {
      OrderTimes(h, q, d);
    } else {
      OrderTimes(h, q, -d);
      assert h * -d == -(h * d) && q * -d == -(q * d);
    }
  }

  lemma OrderTimes(x: real, y: real, d: real)
    requires d > 0.0
    ensures x < y <==> x * d < y * d
  {
    if x < y {
      Positive(y - x, d);
    } else {
      NotNegative(x - y, d);
    }
  }

  lemma Positive(x: real, y: real)
    requires x > 0.0 && y > 0.0
    ensures x * y > 0.0
  {
  }

  lemma NotNegative(x: real, y: real)
    requires x >= 0.0 && y >= 0.0
    ensures x * y >= 0.0
  {
  }

  /** What the division decides, for every edge: the side of the point, off by `EPSILON` times a height. */
  lemma CrossesBySide(p: Point, prev: Point, cur: Point)
    requires Straddles(p, prev, cur)
    ensures Crosses(p, prev, cur) ==
      if Denominator(prev, cur) == 0.0 then None
      else if Denominator(prev, cur) > 0.0 then Some(Side(p, prev, cur) > (p.lat - cur.lat) * EPSILON)
      else Some(Side(p, prev, cur) < (p.lat - cur.lat) * EPSILON)
  {
    var d, h, n := prev.lon - cur.lon, p.lat - cur.lat, (prev.lat - cur.lat) * (p.lon - cur.lon);
    if Denominator(prev, cur) != 0.0 {
      QuotientAbove(h, n, d + EPSILON);
      assert h * (d + EPSILON) == h * d + h * EPSILON;
    }
  }

  function Abs(x: real): real { if x >= 0.0 then x else -x }

  /** The point is off the line through the edge by more than `EPSILON` times its height above the second vertex. */
  predicate OffLine(p: Point, prev: Point, cur: Point)
  {
    Abs(Side(p, prev, cur)) > Abs(p.lat - cur.lat) * EPSILON
  }

  /** And an edge towards larger longitudes spans more than `EPSILON` of them. */
  predicate Clear(p: Point, prev: Point, cur: Point)
  {
    OffLine(p, prev, cur) && (Straddles(p, prev, cur) ==> prev.lon > cur.lon || cur.lon - prev.lon > EPSILON)
  }

  /** The edge straddles the point's meridian and passes above the point. */
  predicate Above(p: Point, prev: Point, cur: Point)
  {
    Straddles(p, prev, cur) && if prev.lon > cur.lon then Side(p, prev, cur) > 0.0 else Side(p, prev, cur) < 0.0
  }

  lemma Scaled(x: real)
    ensures Abs(x * EPSILON) == Abs(x) * EPSILON
  {
  }

  /** Off that margin, an edge is counted exactly when it passes above the point. */
  lemma CrossesIffAbove(p: Point, prev: Point, cur: Point)
    requires Clear(p, prev, cur)
    ensures Crosses(p, prev, cur) == Some(Above(p, prev, cur))
  {
    if Straddles(p, prev, cur) {
      CrossesBySide(p, prev, cur);
      Scaled(p.lat - cur.lat);
    }
  }

  predicate AllClear(p: Point, prev: Point, path: seq<Point>)
    decreases |path|
  {
    path == [] || (Clear(p, prev, path[0]) && AllClear(p, path[0], path[1..]))
  }

  /** Whether the edges of a path that pass above the point are odd in number. */
  predicate OddAbove(p: Point, prev: Point, path: seq<Point>)
    decreases |path|
  {
    path != [] && Above(p, prev, path[0]) != OddAbove(p, path[0], path[1..])
  }

  lemma {:induction false} ParityOfAbove(p: Point, prev: Point, path: seq<Point>)
    requires AllClear(p, prev, path)
    ensures Parity(p, prev, path) == Some(OddAbove(p, prev, path))
    decreases |path|
  {
    if path != [] {
      CrossesIffAbove(p, prev, path[0]);
      ParityOfAbove(p, path[0], path[1..]);
    }
  }

  /** Of any ring: a point off its edges by the margin is inside exactly when an odd number of them pass above it. */
  lemma InsideIffOddAbove(p: Point, ring: seq<Point>)
    requires ring != [] && AllClear(p, ring[|ring| - 1], ring)
    ensures Inside(p, ring) == Some(OddAbove(p, ring[|ring| - 1], ring))
  {
    ParityOfAbove(p, ring[|ring| - 1], ring);
  }

  // ----- triangles -----

  /** The point is on the same side of all three edges. */
  predicate InTriangle(p: Point, a: Point, b: Point, c: Point)
  {
    || (Side(p, a, b) > 0.0 && Side(p, b, c) > 0.0 && Side(p, c, a) > 0.0)
    || (Side(p, a, b) < 0.0 && Side(p, b, c) < 0.0 && Side(p, c, a) < 0.0)
  }

  /** The side of an edge in coordinates around the point. */
  lemma SideAround(p: Point, prev: Point, cur: Point)
    ensures Side(p, prev, cur) ==
      (prev.lon - p.lon) * (cur.lat - p.lat) - (prev.lat - p.lat) * (cur.lon - p.lon)
  {
    var x, y, h, k := prev.lon - p.lon, prev.lat - p.lat, cur.lat - p.lat, cur.lon - p.lon;
    assert prev.lat - cur.lat == y - h && prev.lon - cur.lon == x - k;
    assert p.lon - cur.lon == -k && p.lat - cur.lat == -h;
    Expand(x, y, h, k);
  }

  lemma Expand(x: real, y: real, h: real, k: real)
    ensures (y - h) * -k - -h * (x - k) == x * h - y * k
  {
  }

  /** Weighted by the opposite sides, the vertices balance around the point. */
  lemma SidesBalance(p: Point, a: Point, b: Point, c: Point)
    ensures Side(p, a, b) * (c.lon - p.lon) + Side(p, b, c) * (a.lon - p.lon) + Side(p, c, a) * (b.lon - p.lon) == 0.0
  {
    SideAround(p, a, b);
    SideAround(p, b, c);
    SideAround(p, c, a);
    Cancel(a.lon - p.lon, a.lat - p.lat, b.lon - p.lon, b.lat - p.lat, c.lon - p.lon, c.lat - p.lat);
  }

  lemma Cancel(x: real, x': real, y: real, y': real, z: real, z': real)
    ensures (x * y' - x' * y) * z + (y * z' - y' * z) * x + (z * x' - z' * x) * y == 0.0
  {
  }

  /**
   * One vertex `z` on one side of the meridian, `x` and `y` on the other, longitudes relative to it: when the two
   * edges that meet in `z` have the point on the same side, so does the third.
   */
  lemma ThirdSide(x: real, y: real, z: real, u: real, v: real, w: real)
    requires u * z + v * x + w * y == 0.0 && u != 0.0
    requires (x > 0.0 && y > 0.0 && z <= 0.0) || (x <= 0.0 && y <= 0.0 && z > 0.0)
    ensures v > 0.0 && w > 0.0 ==> u > 0.0
    ensures v < 0.0 && w < 0.0 ==> u < 0.0
  {
    if v > 0.0 && w > 0.0 {
      SameSign(x, y, z, u, v, w);
    }
    if v < 0.0 && w < 0.0 {
      assert -u * z + -v * x + -w * y == -(u * z + v * x + w * y);
      SameSign(x, y, z, -u, -v, -w);
    }
  }

  lemma SameSign(x: real, y: real, z: real, u: real, v: real, w: real)
    requires u * z + v * x + w * y == 0.0 && u != 0.0 && v > 0.0 && w > 0.0
    requires (x > 0.0 && y > 0.0 && z <= 0.0) || (x <= 0.0 && y <= 0.0 && z > 0.0)
    ensures u > 0.0
  {
    if z > 0.0 {
      NotNegative(v, -x);
      NotNegative(w, -y);
    } else {
      Positive(v, x);
      Positive(w, y);
    }
    FactorSign(u, z);
  }

  lemma FactorSign(x: real, y: real)
    requires x != 0.0
    ensures y > 0.0 && x * y >= 0.0 ==> x > 0.0
    ensures y <= 0.0 && x * y < 0.0 ==> x > 0.0
  {
    if x < 0.0 && y > 0.0 {
      Positive(-x, y);
    }
    if x < 0.0 && y <= 0.0 {
      NotNegative(-x, -y);
    }
  }

  /** Not all vertices are on one side of the meridian of a point in the triangle. */
  lemma InTriangleStraddles(p: Point, a: Point, b: Point, c: Point)
    requires InTriangle(p, a, b, c)
    ensures a.lon > p.lon || b.lon > p.lon || c.lon > p.lon
    ensures a.lon <= p.lon || b.lon <= p.lon || c.lon <= p.lon
  {
    var x, y, z := a.lon - p.lon, b.lon - p.lon, c.lon - p.lon;
    var u, v, w := Side(p, a, b), Side(p, b, c), Side(p, c, a);
    SidesBalance(p, a, b, c);
    SideAround(p, a, b);
    if u > 0.0 {
      NotAllOneSide(x, y, z, u, v, w);
    } else {
      assert -u * z + -v * x + -w * y == -(u * z + v * x + w * y);
      NotAllOneSide(x, y, z, -u, -v, -w);
    }
  }

  lemma NotAllOneSide(x: real, y: real, z: real, u: real, v: real, w: real)
    requires u * z + v * x + w * y == 0.0 && u > 0.0 && v > 0.0 && w > 0.0
    requires x != 0.0 || y != 0.0
    ensures (x > 0.0 || y > 0.0 || z > 0.0) && (x <= 0.0 || y <= 0.0 || z <= 0.0)
  {
    if x > 0.0 && y > 0.0 && z > 0.0 {
      Positive(u, z);
      Positive(v, x);
      Positive(w, y);
    }
    if x <= 0.0 && y <= 0.0 && z <= 0.0 {
      NotNegative(u, -z);
      NotNegative(v, -x);
      NotNegative(w, -y);
      if x != 0.0 {
        Positive(v, -x);
      } else {
        Positive(w, -y);
      }
    }
  }

  /** The edges above the point are odd in number exactly when it is on the same side of all three. */
  lemma OddAboveIffInTriangle(p: Point, a: Point, b: Point, c: Point)
    requires Side(p, a, b) != 0.0 && Side(p, b, c) != 0.0 && Side(p, c, a) != 0.0
    ensures (Above(p, c, a) != (Above(p, a, b) != Above(p, b, c))) <==> InTriangle(p, a, b, c)
  {
    var x, y, z := a.lon - p.lon, b.lon - p.lon, c.lon - p.lon;
    var u, v, w := Side(p, a, b), Side(p, b, c), Side(p, c, a);
    SidesBalance(p, a, b, c);
    if (x > 0.0) == (y > 0.0) {
      if (z > 0.0) == (x > 0.0) {
        if InTriangle(p, a, b, c) {
          InTriangleStraddles(p, a, b, c);
        }
      } else {
        ThirdSide(x, y, z, u, v, w);
      }
    } else if (y > 0.0) == (z > 0.0) {
      ThirdSide(y, z, x, v, w, u);
    } else {
      ThirdSide(z, x, y, w, u, v);
    }
  }

  lemma TriangleOdd(p: Point, a: Point, b: Point, c: Point)
    ensures OddAbove(p, c, [a, b, c]) == (Above(p, c, a) != (Above(p, a, b) != Above(p, b, c)))
    ensures AllClear(p, c, [a, b, c]) == (Clear(p, c, a) && Clear(p, a, b) && Clear(p, b, c))
  {
    assert [a, b, c][1..] == [b, c] && [b, c][1..] == [c] && [c][1..] == [];
    assert OddAbove(p, b, [c]) == Above(p, b, c) && AllClear(p, b, [c]) == Clear(p, b, c);
    assert OddAbove(p, a, [b, c]) == (Above(p, a, b) != Above(p, b, c));
  }

  /** A point off its edges by the margin is inside a triangle exactly when it is on the same side of all three. */
  lemma TriangleIff(p: Point, a: Point, b: Point, c: Point)
    requires Clear(p, a, b) && Clear(p, b, c) && Clear(p, c, a)
    ensures Inside(p, [a, b, c]) == Some(InTriangle(p, a, b, c))
  {
    TriangleOdd(p, a, b, c);
    InsideIffOddAbove(p, [a, b, c]);
    OffIsNotOn(p, a, b);
    OffIsNotOn(p, b, c);
    OffIsNotOn(p, c, a);
    OddAboveIffInTriangle(p, a, b, c);
  }

  lemma OffIsNotOn(p: Point, prev: Point, cur: Point)
    requires OffLine(p, prev, cur)
    ensures Side(p, prev, cur) != 0.0
  {
    NotNegative(Abs(p.lat - cur.lat), EPSILON);
  }

  /** The point with these weights of the vertices. */
  predicate Weighted(p: Point, a: Point, b: Point, c: Point, x: real, y: real, z: real)
  {
    && x + y + z == 1.0
    && p.lat == x * a.lat + y * b.lat + z * c.lat && p.lon == x * a.lon + y * b.lon + z * c.lon
  }

  lemma WeightedSide(p: Point, a: Point, b: Point, c: Point, x: real, y: real, z: real)
    requires Weighted(p, a, b, c, x, y, z)
    ensures Side(p, a, b) == z * Side(c, a, b)
  {
    var s, t := c.lat - b.lat, c.lon - b.lon;
    var k, m := a.lat - b.lat, a.lon - b.lon;
    assert p.lat - b.lat == x * k + z * s by {
      assert b.lat == x * b.lat + y * b.lat + z * b.lat;
    }
    assert p.lon - b.lon == x * m + z * t by {
      assert b.lon == x * b.lon + y * b.lon + z * b.lon;
    }
    LinearSide(k, m, s, t, x, z);
  }

  lemma LinearSide(k: real, m: real, s: real, t: real, x: real, z: real)
    ensures k * (x * m + z * t) - (x * k + z * s) * m == z * (k * t - s * m)
  {
  }

  lemma MixtureSides(p: Point, a: Point, b: Point, c: Point, x: real, y: real, z: real)
    requires Weighted(p, a, b, c, x, y, z)
    ensures var area := Side(c, a, b);
      Side(p, a, b) == z * area && Side(p, b, c) == x * area && Side(p, c, a) == y * area
  {
    SameArea(a, b, c);
    WeightedSide(p, a, b, c, x, y, z);
    assert Weighted(p, b, c, a, y, z, x) && Weighted(p, c, a, b, z, x, y);
    WeightedSide(p, b, c, a, y, z, x);
    WeightedSide(p, c, a, b, z, x, y);
  }

  lemma OneSign(u: real, v: real, w: real, x: real, y: real, z: real, area: real)
    requires u == x * area && v == y * area && w == z * area && area != 0.0 && x > 0.0 && y > 0.0 && z > 0.0
    ensures (u > 0.0 && v > 0.0 && w > 0.0) || (u < 0.0 && v < 0.0 && w < 0.0)
  {
    TimesSign(x, area);
    TimesSign(y, area);
    TimesSign(z, area);
  }

  /** Every proper mixture of the vertices of a triangle that is not flat lies on the same side of all three edges. */
  lemma MixturesInTriangle(p: Point, a: Point, b: Point, c: Point, x: real, y: real, z: real)
    requires Weighted(p, a, b, c, x, y, z) && x > 0.0 && y > 0.0 && z > 0.0 && Side(c, a, b) != 0.0
    ensures InTriangle(p, a, b, c)
  {
    MixtureSides(p, a, b, c, x, y, z);
    OneSign(Side(p, b, c), Side(p, c, a), Side(p, a, b), x, y, z, Side(c, a, b));
  }

  lemma SameArea(a: Point, b: Point, c: Point)
    ensures Side(a, b, c) == Side(c, a, b) == Side(b, c, a)
  {
    SideAround(b, c, a);
    SideAround(c, a, b);
    SideAround(a, b, c);
  }

  lemma TimesSign(x: real, y: real)
    requires x > 0.0 && y != 0.0
    ensures if y > 0.0 then x * y > 0.0 else x * y < 0.0
  {
    if y > 0.0 {
      Positive(x, y);
    } else {
      Positive(x, -y);
      assert x * -y == -(x * y);
    }
  }

  /** So it is found inside, when it is off the edges by the margin. */
  lemma MixturesFoundInside(p: Point, a: Point, b: Point, c: Point, x: real, y: real, z: real)
    requires Weighted(p, a, b, c, x, y, z) && x > 0.0 && y > 0.0 && z > 0.0 && Side(c, a, b) != 0.0
    requires Clear(p, a, b) && Clear(p, b, c) && Clear(p, c, a)
    ensures Inside(p, [a, b, c]) == Some(true)
  {
    MixturesInTriangle(p, a, b, c, x, y, z);
    TriangleIff(p, a, b, c);
  }

  /** No edge with both ends at or below the point passes above it. */
  lemma LowEdgeNotAbove(p: Point, prev: Point, cur: Point)
    requires prev.lat <= p.lat && cur.lat <= p.lat
    ensures !Above(p, prev, cur)
  {
    if Straddles(p, prev, cur) {
      var rise, h, x, d := prev.lat - cur.lat, p.lat - cur.lat, p.lon - cur.lon, prev.lon - cur.lon;
      if prev.lon > cur.lon {
        NotNegative(h - rise, x);
        NotNegative(h, d - x);
        Regroup(rise, h, x, d);
      } else {
        NotNegative(h - rise, -x);
        NotNegative(h, x - d);
        Regroup(rise, h, x, d);
      }
    }
  }

  lemma Regroup(rise: real, h: real, x: real, d: real)
    ensures rise * x - h * d == -((h - rise) * x) - h * (d - x)
    ensures rise * x - h * d == (h - rise) * -x + h * (x - d)
  {
  }

  lemma {:induction false} LowPathNotAbove(p: Point, prev: Point, path: seq<Point>)
    requires prev.lat <= p.lat && forall v :: v in path ==> v.lat <= p.lat
    ensures !OddAbove(p, prev, path)
    decreases |path|
  {
    if path != [] {
      assert path[0] in path;
      assert forall v :: v in path[1..] ==> v in path;
      LowEdgeNotAbove(p, prev, path[0]);
      LowPathNotAbove(p, path[0], path[1..]);
    }
  }

  /** A point above every vertex of a ring, off its edges by the margin, is outside. */
  lemma AboveRingIsOutside(p: Point, ring: seq<Point>)
    requires ring != [] && AllClear(p, ring[|ring| - 1], ring) && forall v :: v in ring ==> v.lat <= p.lat
    ensures Inside(p, ring) == Some(false)
  {
    assert ring[|ring| - 1] in ring;
    InsideIffOddAbove(p, ring);
    LowPathNotAbove(p, ring[|ring| - 1], ring);
  }

  lemma InsideByEdges(p: Point, a: Point, b: Point, c: Point)
    ensures Inside(p, [a, b, c]) == Flip(Crosses(p, c, a), Flip(Crosses(p, a, b), Flip(Crosses(p, b, c), Some(false))))
  {
    assert [a, b, c][1..] == [b, c] && [b, c][1..] == [c] && [c][1..] == [];
    assert Parity(p, b, [c]) == Flip(Crosses(p, b, c), Some(false));
    assert Parity(p, a, [b, c]) == Flip(Crosses(p, a, b), Parity(p, b, [c]));
  }

  /** Just under the slanted edge from (2, 1) to (0, 0), closer to it than the added constant moves the crossing. */
  lemma JustUnderSlope(lat: real)
    requires lat == 1.0 / 1.000000000001
    ensures var p, a, c := Point(lat, 0.5), Point(0.0, 0.0), Point(2.0, 1.0);
      Side(p, c, a) > 0.0 && Crosses(p, c, a) == Some(false)
  {
    assert lat * 1.000000000001 == 1.0;
    CrossesBySide(Point(lat, 0.5), Point(2.0, 1.0), Point(0.0, 0.0));
  }

  lemma OverFloor(lat: real)
    requires lat > 0.0
    ensures var p, a, b := Point(lat, 0.5), Point(0.0, 0.0), Point(0.0, 1.0);
      Side(p, a, b) == lat && Crosses(p, a, b) == Some(false)
  {
    CrossesBySide(Point(lat, 0.5), Point(0.0, 0.0), Point(0.0, 1.0));
  }

  lemma LeftOfWall(lat: real)
    ensures var p, b, c := Point(lat, 0.5), Point(0.0, 1.0), Point(2.0, 1.0);
      Side(p, b, c) == 1.0 && Crosses(p, b, c) == Some(false)
  {
    assert (lat - 2.0) * (1.0 - 1.0) == 0.0;
  }

  /** Within the margin a point strictly inside a triangle is found outside. */
  lemma MisjudgedWithinMargin(lat: real)
    requires lat == 1.0 / 1.000000000001
    ensures var p, a, b, c := Point(lat, 0.5), Point(0.0, 0.0), Point(0.0, 1.0), Point(2.0, 1.0);
      InTriangle(p, a, b, c) && Inside(p, [a, b, c]) == Some(false)
  {
    assert lat > 0.0;
    JustUnderSlope(lat);
    OverFloor(lat);
    LeftOfWall(lat);
    InsideByEdges(Point(lat, 0.5), Point(0.0, 0.0), Point(0.0, 1.0), Point(2.0, 1.0));
  }

  /** Some edge of the path straddles the meridian and spans exactly the added constant towards larger longitudes. */
  predicate HasTinyEdge(p: Point, prev: Point, path: seq<Point>)
    decreases |path|
  {
    path != [] && ((Straddles(p, prev, path[0]) && path[0].lon - prev.lon == 0.000000000001) ||
                   HasTinyEdge(p, path[0], path[1..]))
  }

  lemma {:induction false} PathRaisesIffTinyEdge(p: Point, prev: Point, path: seq<Point>)
    ensures Parity(p, prev, path) == None <==> HasTinyEdge(p, prev, path)
    decreases |path|
  {
    if path != [] {
      PathRaisesIffTinyEdge(p, path[0], path[1..]);
    }
  }

  /** The division raises exactly when the ring has such an edge. */
  lemma RaisesIffTinyEdge(p: Point, ring: seq<Point>)
    ensures Inside(p, ring) == None <==> ring != [] && HasTinyEdge(p, ring[|ring| - 1], ring)
  {
    if ring != [] {
      PathRaisesIffTinyEdge(p, ring[|ring| - 1], ring);
    }
  }

  // ----- where the ring starts does not matter -----

  /** Rotating the vertex list changes nothing, an error included. */
  lemma RotationInvariant(p: Point, ring: seq<Point>, k: nat)
    requires k <= |ring|
    ensures Inside(p, ring[k..] + ring[..k]) == Inside(p, ring)
  {
    var a, b := ring[..k], ring[k..];
    assert ring == a + b;
    if a == [] || b == [] {
      assert b + a == ring;
    } else {
      ParityAppend(p, Last(p, b), a, b);
      ParityAppend(p, Last(p, a), b, a);
    }
  }

  /** Repeating the first vertex at the end changes nothing. */
  lemma ClosingInvariant(p: Point, ring: seq<Point>)
    requires ring != []
    ensures Inside(p, ring + [ring[0]]) == Inside(p, ring)
  {
    var first, rest := ring[0], ring[1..];
    var closed := ring + [first];
    assert closed[0] == first && closed[1..] == rest + [first];
    ParityAppend(p, first, rest, [first]);
    assert [first][1..] == [];
  }

  // ----- crossings come in pairs -----

  function StraddleParity(p: Point, prev: Point, path: seq<Point>): bool
    decreases |path|
  {
    if path == [] then false else Straddles(p, prev, path[0]) != StraddleParity(p, path[0], path[1..])
  }

  /** A path straddles the meridian an odd number of times exactly when its ends are on different sides. */
  lemma {:induction false} StraddlesOddIffEndsDiffer(p: Point, prev: Point, path: seq<Point>)
    ensures StraddleParity(p, prev, path) == ((Last(prev, path).lon > p.lon) != (prev.lon > p.lon))
    decreases |path|
  {
    if path != [] {
      StraddlesOddIffEndsDiffer(p, path[0], path[1..]);
    }
  }

  /** Around a ring the straddling edges are even in number. */
  lemma StraddlesEven(p: Point, ring: seq<Point>)
    requires ring != []
    ensures !StraddleParity(p, ring[|ring| - 1], ring)
  {
    StraddlesOddIffEndsDiffer(p, ring[|ring| - 1], ring);
  }

  /** Every straddling edge of a path lies above the point, and none has a zero denominator. */
  ghost predicate AllAbove(p: Point, prev: Point, path: seq<Point>)
    decreases |path|
  {
    path == [] ||
    ((Straddles(p, prev, path[0]) ==> Crosses(p, prev, path[0]) == Some(true)) && AllAbove(p, path[0], path[1..]))
  }

  lemma {:induction false} AboveCountsStraddles(p: Point, prev: Point, path: seq<Point>)
    requires AllAbove(p, prev, path)
    ensures Parity(p, prev, path) == Some(StraddleParity(p, prev, path))
    decreases |path|
  {
    if path != [] {
      AboveCountsStraddles(p, path[0], path[1..]);
    }
  }

  /** A point below every crossing of its meridian is outside. */
  lemma BelowAllCrossingsIsOutside(p: Point, ring: seq<Point>)
    requires ring != [] && AllAbove(p, ring[|ring| - 1], ring)
    ensures Inside(p, ring) == Some(false)
  {
    AboveCountsStraddles(p, ring[|ring| - 1], ring);
    StraddlesEven(p, ring);
  }

  lemma {:induction false} OneSideNoCrossing(p: Point, prev: Point, path: seq<Point>)
    requires forall v :: v in path ==> (v.lon > p.lon) == (prev.lon > p.lon)
    ensures Parity(p, prev, path) == Some(false)
    decreases |path|
  {
    if path != [] {
      assert path[0] in path;
      assert forall v :: v in path[1..] ==> v in path;
      OneSideNoCrossing(p, path[0], path[1..]);
    }
  }

  /** A point whose longitude is outside the range of the ring's is outside. */
  lemma OutsideLongitudeRange(p: Point, ring: seq<Point>)
    requires (forall v :: v in ring ==> v.lon > p.lon) || (forall v :: v in ring ==> v.lon <= p.lon)
    ensures Inside(p, ring) == Some(false)
  {
    if ring != [] {
      assert ring[|ring| - 1] in ring;
      OneSideNoCrossing(p, ring[|ring| - 1], ring);
    }
  }

  // ----- GeoJSON -----

  /** A position of RFC 7946: longitude first, then latitude. */
  type Position = (real, real)

  datatype GeoJson = Polygon(rings: seq<seq<Position>>) | MultiPolygon(polygons: seq<seq<seq<Position>>>) | Other

  function ToPoints(coords: seq<Position>): (r: seq<Point>)
    ensures |r| == |coords|
  {
    seq(|coords|, i requires 0 <= i < |coords| => Point(coords[i].1, coords[i].0))
  }

  function ToPositions(ring: seq<Point>): (r: seq<Position>)
    ensures |r| == |ring|
  {
    seq(|ring|, i requires 0 <= i < |ring| => (ring[i].lon, ring[i].lat))
  }

  function RingToGeoJson(ring: seq<Point>): GeoJson
  {
    var coords := ToPositions(ring);
    Polygon([if coords != [] && coords[0] != coords[|coords| - 1] then coords + [coords[0]] else coords])
  }

  /** The outer rings of the polygons that have one. */
  function OuterRings(polygons: seq<seq<seq<Position>>>): seq<seq<Point>>
  {
    if polygons == [] then []
    else
      var init, last := polygons[..|polygons| - 1], polygons[|polygons| - 1];
      OuterRings(init) + (if last == [] then [] else [ToPoints(last[0])])
  }

  function GeoJsonToRings(g: GeoJson): seq<seq<Point>>
  {
    match g
    case Polygon(rings) => if rings == [] then [] else [ToPoints(rings[0])]
    case MultiPolygon(polygons) => OuterRings(polygons)
    case Other => []
  }

  /** `geojson_to_rings`, with its loop over the polygons of a MultiPolygon. */
  method ReadRings(g: GeoJson) returns (rings: seq<seq<Point>>)
    ensures rings == GeoJsonToRings(g)
  {
    rings := [];
    if g.Polygon? {
      if g.rings != [] {
        rings := rings + [ToPoints(g.rings[0])];
      }
    }
    if g.MultiPolygon? {
      for i := 0 to |g.polygons|
        invariant rings == OuterRings(g.polygons[..i])
      {
        assert g.polygons[..i + 1][..i] == g.polygons[..i];
        if g.polygons[i] != [] {
          rings := rings + [ToPoints(g.polygons[i][0])];
        }
      }
      assert g.polygons[..|g.polygons|] == g.polygons;
    }
  }

  /** The points of a polygon are those of its first ring, in order, whatever rings follow. */
  lemma PointsOfPolygon(outer: seq<Position>, holes: seq<seq<Position>>)
    ensures var rings := GeoJsonToRings(Polygon([outer] + holes));
      && |rings| == 1 && |rings[0]| == |outer|
      && forall k :: 0 <= k < |outer| ==> rings[0][k].lon == outer[k].0 && rings[0][k].lat == outer[k].1
    ensures GeoJsonToRings(Polygon([])) == [] && GeoJsonToRings(Other) == []
  {
    assert ([outer] + holes)[0] == outer;
  }

  /** A MultiPolygon gives the rings of its polygons, one after the other. */
  lemma {:induction false} RingsOfMultiPolygon(a: seq<seq<seq<Position>>>, rings: seq<seq<Position>>)
    ensures GeoJsonToRings(MultiPolygon(a + [rings])) ==
      GeoJsonToRings(MultiPolygon(a)) + GeoJsonToRings(Polygon(rings))
  {
    assert (a + [rings])[..|a|] == a;
  }

  /** A ring is written longitude first, and closed. */
  lemma RingWritten(ring: seq<Point>)
    ensures var g := RingToGeoJson(ring);
      && g.Polygon? && |g.rings| == 1
      && |g.rings[0]| == |ring| + (if ring != [] && ring[0] != ring[|ring| - 1] then 1 else 0)
      && (forall k :: 0 <= k < |ring| ==> g.rings[0][k].0 == ring[k].lon && g.rings[0][k].1 == ring[k].lat)
      && (ring != [] ==> g.rings[0][|g.rings[0]| - 1] == g.rings[0][0])
  {
  }

  lemma PointsOfPositions(ring: seq<Point>)
    ensures ToPoints(ToPositions(ring)) == ring
  {
  }

  /** Ring to GeoJSON and back gives one ring, closed, that contains exactly the same points. */
  lemma GeoJsonKeepsInside(p: Point, ring: seq<Point>)
    ensures var back := GeoJsonToRings(RingToGeoJson(ring)); |back| == 1 && Inside(p, back[0]) == Inside(p, ring)
  {
    var coords := ToPositions(ring);
    PointsOfPositions(ring);
    if coords != [] && coords[0] != coords[|coords| - 1] {
      assert ToPoints(coords + [coords[0]]) == ring + [ring[0]];
      ClosingInvariant(p, ring);
    }
  }
}
