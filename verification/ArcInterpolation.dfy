/**
 gcode_viewer/js/prettygcode.js, `interpolateArc`: a G2/G3 arc becomes straight segments by
 rotating the radius vector step by step, with a periodic recomputation from the start vector.
 Numbers are exact reals; the Math functions are parameters constrained by their usual laws.
 */
module ArcInterpolation {

  datatype Trig = Trig(sin: real -> real, cos: real -> real, atan2: (real, real) -> real,
                       hypot: (real, real) -> real, pi: real)

  ghost predicate AngleSum(t: Trig, a: real, b: real) {
    && t.cos(a + b) == t.cos(a) * t.cos(b) - t.sin(a) * t.sin(b)
    && t.sin(a + b) == t.sin(a) * t.cos(b) + t.cos(a) * t.sin(b)
  }

  ghost predicate Pythagoras(t: Trig, a: real) {
    t.sin(a) * t.sin(a) + t.cos(a) * t.cos(a) == 1.0
  }

  ghost predicate Norm(t: Trig, x: real, y: real) {
    t.hypot(x, y) >= 0.0 && t.hypot(x, y) * t.hypot(x, y) == x * x + y * y
  }

  ghost predicate Polar(t: Trig, y: real, x: real) {
    && -t.pi <= t.atan2(y, x) <= t.pi
    && t.hypot(x, y) * t.cos(t.atan2(y, x)) == x
    && t.hypot(x, y) * t.sin(t.atan2(y, x)) == y
  }

  ghost predicate Lawful(t: Trig) {
    && t.pi > 0.0
    && t.sin(0.0) == 0.0 && t.cos(0.0) == 1.0
    && t.sin(2.0 * t.pi) == 0.0 && t.cos(2.0 * t.pi) == 1.0
    && (forall a :: Pythagoras(t, a))
    && (forall a, b :: AngleSum(t, a, b))
    && (forall x, y :: Norm(t, x, y))
    && (forall y, x :: Polar(t, y, x))
  }

  datatype Settings = Settings(maxLength: real, minSegments: int, minLength: real, correction: int)

  const DEFAULTS := Settings(1.0, 20, 0.1, 24)

  datatype Point = Point(x: real, y: real, z: real, e: real)

  datatype Arc = Arc(x: real, y: real, z: real, e: real, i: real, j: real, clockwise: bool)

  function Ceil(r: real): int { -((-r).Floor) }

  function SegmentLength(t: Trig, s: Settings, radius: real): real {
    var a := if s.minSegments > 0 then radius * (2.0 * t.pi / s.minSegments as real) else s.maxLength;
    var b := if s.minLength > 0.0 && a < s.minLength then s.minLength else a;
    if b > s.maxLength then s.maxLength else b
  }

  function CenterX(start: Point, arc: Arc): real { start.x + arc.i }
  function CenterY(start: Point, arc: Arc): real { start.y + arc.j }

  function Product(a: real, b: real): real { a * b }

  datatype Vec = Vec(x: real, y: real) {
    function Norm2(): real { Product(x, x) + Product(y, y) }
  }

  function Cross(u: Vec, w: Vec): real { u.x * w.y - u.y * w.x }
  function Dot(u: Vec, w: Vec): real { u.x * w.x + u.y * w.y }

  function StartRadius(arc: Arc): Vec { Vec(-arc.i, -arc.j) }

  function Offset(start: Point, arc: Arc, p: Point): Vec {
    Vec(p.x - CenterX(start, arc), p.y - CenterY(start, arc))
  }

  function RawAngle(t: Trig, u: Vec, w: Vec): real { t.atan2(Cross(u, w), Dot(u, w)) }

  function Signed(pi: real, raw: real, clockwise: bool, samePoint: bool): real {
    var positive := if raw < 0.0 then raw + 2.0 * pi else raw;
    var signed := if clockwise then positive - 2.0 * pi else positive;
    if samePoint && signed == 0.0 then signed + 2.0 * pi else signed
  }

  function AngularTravel(t: Trig, start: Point, arc: Arc): real {
    Signed(t.pi, RawAngle(t, StartRadius(arc), Offset(start, arc, Target(arc))),
           arc.clockwise, start.x == arc.x && start.y == arc.y)
  }

  function Abs(r: real): real { if r < 0.0 then -r else r }

  function Helix(t: Trig, angle: real, radius: real, rise: real): real {
    var flat := angle * radius;
    t.hypot(flat, rise)
  }

  function Travel(t: Trig, start: Point, arc: Arc): real {
    Helix(t, AngularTravel(t, start, arc), t.hypot(arc.i, arc.j), Abs(arc.z - start.z))
  }

  function Segments(t: Trig, s: Settings, start: Point, arc: Arc): int
    requires SegmentLength(t, s, t.hypot(arc.i, arc.j)) > 0.0
  {
    Ceil(Travel(t, start, arc) / SegmentLength(t, s, t.hypot(arc.i, arc.j)))
  }

  function Rotate(v: Vec, c: real, s: real): Vec {
    Vec(v.x * c - v.y * s, v.x * s + v.y * c)
  }

  /** The correction formula: the start radius vector (-i, -j) turned by one exact angle. */
  function Radius(t: Trig, arc: Arc, angle: real): Vec {
    Vec(-arc.i * t.cos(angle) + arc.j * t.sin(angle), -arc.i * t.sin(angle) - arc.j * t.cos(angle))
  }

  function Times(k: int, step: real): real { k as real * step }

  /** Where the k-th of n points belongs, computed without any predecessor. */
  function ArcPoint(t: Trig, start: Point, arc: Arc, n: int, k: int): Point
    requires n > 0
  {
    var v := Radius(t, arc, Times(k, AngularTravel(t, start, arc) / n as real));
    Point(CenterX(start, arc) + v.x, CenterY(start, arc) + v.y,
          start.z + Times(k, (arc.z - start.z) / n as real),
          start.e + Times(k, (arc.e - start.e) / n as real))
  }

  function Target(arc: Arc): Point { Point(arc.x, arc.y, arc.z, arc.e) }

  function Interior(t: Trig, start: Point, arc: Arc, n: int): seq<Point>
    requires n > 0
  {
    seq(n - 1, k requires 0 <= k < n - 1 => ArcPoint(t, start, arc, n, k + 1))
  }

  function ArcPoints(t: Trig, s: Settings, start: Point, arc: Arc): seq<Point>
    requires SegmentLength(t, s, t.hypot(arc.i, arc.j)) > 0.0
  {
    var n := Segments(t, s, start, arc);
    [start] + (if n > 1 then Interior(t, start, arc, n) else []) + [Target(arc)]
  }

  lemma RotateTwice(v: Vec, ca: real, sa: real, cb: real, sb: real)
    ensures Rotate(Rotate(v, ca, sa), cb, sb) == Rotate(v, ca * cb - sa * sb, sa * cb + ca * sb)
  {
    calc {
      (v.x * ca - v.y * sa) * cb - (v.x * sa + v.y * ca) * sb;
      v.x * (ca * cb - sa * sb) - v.y * (sa * cb + ca * sb);
    }
    calc {
      (v.x * ca - v.y * sa) * sb + (v.x * sa + v.y * ca) * cb;
      v.x * (sa * cb + ca * sb) + v.y * (ca * cb - sa * sb);
    }
  }

  lemma RadiusIsRotation(t: Trig, arc: Arc, angle: real)
    ensures Radius(t, arc, angle) == Rotate(Vec(-arc.i, -arc.j), t.cos(angle), t.sin(angle))
  {
  }

  /** The iterated step and the periodic correction agree at every index. */
  lemma RotateOnce(t: Trig, arc: Arc, k: int, theta: real)
    requires Lawful(t)
    ensures Radius(t, arc, Times(k, theta)) == Rotate(Radius(t, arc, Times(k - 1, theta)), t.cos(theta), t.sin(theta))
  {
    var a := Times(k - 1, theta);
    NextMultiple(k, theta);
    assert AngleSum(t, a, theta);
    RadiusIsRotation(t, arc, a);
    RadiusIsRotation(t, arc, Times(k, theta));
    RotateTwice(Vec(-arc.i, -arc.j), t.cos(a), t.sin(a), t.cos(theta), t.sin(theta));
  }

  lemma NextMultiple(k: int, step: real)
    ensures Times(k, step) == Times(k - 1, step) + step
  {
  }

  method InterpolateArc(t: Trig, s: Settings, start: Point, arc: Arc) returns (points: seq<Point>)
    requires Lawful(t) && SegmentLength(t, s, t.hypot(arc.i, arc.j)) > 0.0
    ensures points == ArcPoints(t, s, start, arc)
  {
    points := [start];
    var n := Segments(t, s, start, arc);
    if n > 1 {
      var theta := AngularTravel(t, start, arc) / n as real;
      var dz, de := (arc.z - start.z) / n as real, (arc.e - start.e) / n as real;
      var cosT, sinT := t.cos(theta), t.sin(theta);
      var v, count := Vec(-arc.i, -arc.j), 0;
      var z, e := start.z, start.e;
      var k := 1;
      assert Times(0, theta) == 0.0;
      while k < n
        invariant 1 <= k <= n
        invariant v == Radius(t, arc, Times(k - 1, theta))
        invariant z == start.z + Times(k - 1, dz) && e == start.e + Times(k - 1, de)
        invariant points == [start] + Interior(t, start, arc, n)[..k - 1]
      {
        NextMultiple(k, dz);
        NextMultiple(k, de);
        if count < s.correction {
          RotateOnce(t, arc, k, theta);
          v := Rotate(v, cosT, sinT);
          count := count + 1;
        } else {
          v := Radius(t, arc, Times(k, theta));
          count := 0;
        }
        z, e := z + dz, e + de;
        points := points + [Point(CenterX(start, arc) + v.x, CenterY(start, arc) + v.y, z, e)];
        assert points[k] == ArcPoint(t, start, arc, n, k);
        k := k + 1;
      }
    }
    points := points + [Target(arc)];
  }

  // ---------------------------------------------------------------- what the points mean

  lemma RotateKeepsNorm(v: Vec, c: real, s: real)
    requires s * s + c * c == 1.0
    ensures Rotate(v, c, s).Norm2() == v.Norm2()
  {
    calc {
      Rotate(v, c, s).Norm2();
      (v.x * v.x + v.y * v.y) * (s * s + c * c);
    }
  }

  lemma RadiusNorm(t: Trig, arc: Arc, angle: real)
    requires Lawful(t)
    ensures Radius(t, arc, angle).Norm2() == arc.i * arc.i + arc.j * arc.j
  {
    assert Pythagoras(t, angle);
    RadiusIsRotation(t, arc, angle);
    RotateKeepsNorm(Vec(-arc.i, -arc.j), t.cos(angle), t.sin(angle));
  }

  /** Every point lies on the circle of squared radius i*i + j*j. */
  lemma OnCircle(t: Trig, start: Point, arc: Arc, n: int, k: int)
    requires Lawful(t) && n > 0
    ensures Offset(start, arc, ArcPoint(t, start, arc, n, k)).Norm2() == arc.i * arc.i + arc.j * arc.j
  {
    var angle := Times(k, AngularTravel(t, start, arc) / n as real);
    RadiusNorm(t, arc, angle);
    assert Offset(start, arc, ArcPoint(t, start, arc, n, k)) == Radius(t, arc, angle);
  }

  lemma ChordAlgebra(v: Vec, c: real, s: real)
    requires s * s + c * c == 1.0
    ensures var w := Rotate(v, c, s);
      Vec(w.x - v.x, w.y - v.y).Norm2() == v.Norm2() * (2.0 - 2.0 * c)
  {
    var w := Rotate(v, c, s);
    RotateKeepsNorm(v, c, s);
    calc {
      Vec(w.x - v.x, w.y - v.y).Norm2();
      w.Norm2() + v.Norm2() - 2.0 * (w.x * v.x + w.y * v.y);
      { assert w.x * v.x + w.y * v.y == c * v.Norm2(); }
      v.Norm2() * (2.0 - 2.0 * c);
    }
  }

  /** Neighbouring points are the same distance apart wherever they lie on the arc. */
  lemma EqualChords(t: Trig, start: Point, arc: Arc, n: int, k: int)
    requires Lawful(t) && n > 0
    ensures var p, q := ArcPoint(t, start, arc, n, k - 1), ArcPoint(t, start, arc, n, k);
      Vec(q.x - p.x, q.y - p.y).Norm2()
      == (arc.i * arc.i + arc.j * arc.j) * (2.0 - 2.0 * t.cos(AngularTravel(t, start, arc) / n as real))
  {
    var theta := AngularTravel(t, start, arc) / n as real;
    var v, w := Radius(t, arc, Times(k - 1, theta)), Radius(t, arc, Times(k, theta));
    RotateOnce(t, arc, k, theta);
    RadiusNorm(t, arc, Times(k - 1, theta));
    assert Pythagoras(t, theta);
    ChordAlgebra(v, t.cos(theta), t.sin(theta));
    var p, q := ArcPoint(t, start, arc, n, k - 1), ArcPoint(t, start, arc, n, k);
    assert Vec(q.x - p.x, q.y - p.y) == Vec(w.x - v.x, w.y - v.y);
  }

  /** Between 2 and any number of points, first and last exact, Z and E affine in the index. */
  lemma PointCount(t: Trig, s: Settings, start: Point, arc: Arc)
    requires Lawful(t) && SegmentLength(t, s, t.hypot(arc.i, arc.j)) > 0.0
    ensures var points, n := ArcPoints(t, s, start, arc), Segments(t, s, start, arc);
      && n >= 0
      && |points| == (if n > 1 then n else 1) + 1
      && points[0] == start && points[|points| - 1] == Target(arc)
      && forall k :: 0 <= k < |points| && n > 0 ==>
           points[k].z == start.z + Times(k, (arc.z - start.z) / n as real)
           && points[k].e == start.e + Times(k, (arc.e - start.e) / n as real)
  {
    var travel, length := Travel(t, start, arc), SegmentLength(t, s, t.hypot(arc.i, arc.j));
    TravelSign(t, start, arc);
    QuotientSign(travel, length);
    var points, n := ArcPoints(t, s, start, arc), Segments(t, s, start, arc);
    if n > 0 {
      EndOfRamp(n, start.z, arc.z);
      EndOfRamp(n, start.e, arc.e);
    }
  }

  lemma TravelSign(t: Trig, start: Point, arc: Arc)
    requires Lawful(t)
    ensures Travel(t, start, arc) >= 0.0
  {
    HelixSign(t, AngularTravel(t, start, arc), t.hypot(arc.i, arc.j), Abs(arc.z - start.z));
  }

  lemma HelixSign(t: Trig, angle: real, radius: real, rise: real)
    requires Lawful(t)
    ensures Helix(t, angle, radius, rise) >= 0.0
  {
    var flat := angle * radius;
    assert Norm(t, flat, rise);
  }

  lemma QuotientSign(a: real, b: real)
    requires a >= 0.0 && b > 0.0
    ensures a / b >= 0.0
  {
  }

  lemma EndOfRamp(n: int, from: real, to: real)
    requires n > 0
    ensures from + Times(n, (to - from) / n as real) == to
  {
  }

  function Square(x: real): real { Product(x, x) }

  /** The square of the helix: the arc turned at its radius, and the rise. */
  lemma TravelSquare(t: Trig, start: Point, arc: Arc)
    requires Lawful(t)
    ensures Square(Travel(t, start, arc))
         == Square(Product(AngularTravel(t, start, arc), t.hypot(arc.i, arc.j))) + Square(arc.z - start.z)
  {
    assert Norm(t, Product(AngularTravel(t, start, arc), t.hypot(arc.i, arc.j)), Abs(arc.z - start.z));
    hide Lawful, AngularTravel;
  }

  lemma CeilingBounds(travel: real, length: real)
    requires travel >= 0.0 && length > 0.0
    ensures var n := Ceil(travel / length);
      n >= 0 && travel <= Product(n as real, length) && (n > 0 ==> Product((n - 1) as real, length) < travel)
  {
    var q, n := travel / length, Ceil(travel / length);
    QuotientSign(travel, length);
    assert (n - 1) as real < q <= n as real;
    assert Product(q, length) == travel;
    if q < n as real {
      ProductGrows(length, q, n as real);
    }
    ProductGrows(length, (n - 1) as real, q);
  }

  lemma SquareOrder(a: real, b: real)
    requires 0.0 <= a <= b
    ensures Square(a) <= Square(b)
  {
    if a < b {
      SquareGrows(a, b);
    }
  }

  lemma ProductIsPositive(a: real, b: real)
    requires a >= 0.0 && b > 0.0
    ensures Product(a, b) >= 0.0
  {
  }

  /**
   The number of segments is the least that covers arc and rise at the segment length in force: n lengths are at least
   as long as the helix, n - 1 are shorter.
   */
  lemma SegmentsCoverTheArc(t: Trig, s: Settings, start: Point, arc: Arc)
    requires Lawful(t) && SegmentLength(t, s, t.hypot(arc.i, arc.j)) > 0.0
    ensures var n, length := Segments(t, s, start, arc), SegmentLength(t, s, t.hypot(arc.i, arc.j));
      var helix := Square(Product(AngularTravel(t, start, arc), t.hypot(arc.i, arc.j))) + Square(arc.z - start.z);
      && n >= 0 && Square(Product(n as real, length)) >= helix
      && (n > 0 ==> Square(Product((n - 1) as real, length)) < helix)
  {
    var n, length := Segments(t, s, start, arc), SegmentLength(t, s, t.hypot(arc.i, arc.j));
    var travel := Travel(t, start, arc);
    TravelSign(t, start, arc);
    TravelSquare(t, start, arc);
    CeilingBounds(travel, length);
    hide Lawful, AngularTravel, Travel, SegmentLength, Product;
    SquareOrder(travel, Product(n as real, length));
    if n > 0 {
      ProductIsPositive((n - 1) as real, length);
      SquareGrows(Product((n - 1) as real, length), travel);
    }
    hide Square;
  }

  /** So the turn at the radius and the rise between two neighbouring points never exceed that length. */
  lemma SegmentsAreShort(t: Trig, s: Settings, start: Point, arc: Arc)
    requires Lawful(t) && SegmentLength(t, s, t.hypot(arc.i, arc.j)) > 0.0 && Segments(t, s, start, arc) > 0
    ensures var n := Segments(t, s, start, arc) as real;
      Square(Product(AngularTravel(t, start, arc), t.hypot(arc.i, arc.j)) / n) + Square((arc.z - start.z) / n)
      <= Square(SegmentLength(t, s, t.hypot(arc.i, arc.j)))
  {
    SegmentsCoverTheArc(t, s, start, arc);
    hide Lawful, AngularTravel, SegmentLength, Segments, Square;
    SharesOfSquares(Product(AngularTravel(t, start, arc), t.hypot(arc.i, arc.j)), arc.z - start.z,
                    SegmentLength(t, s, t.hypot(arc.i, arc.j)), Segments(t, s, start, arc) as real);
  }

  lemma ScaledSquare(n: real, x: real)
    ensures Square(Product(n, x)) == Product(Square(n), Square(x))
  {
  }

  lemma SharesOfSquares(a: real, b: real, c: real, n: real)
    requires n > 0.0 && Square(a) + Square(b) <= Square(Product(n, c))
    ensures Square(a / n) + Square(b / n) <= Square(c)
  {
    assert Product(n, a / n) == a && Product(n, b / n) == b;
    ScaledSquare(n, a / n);
    ScaledSquare(n, b / n);
    ScaledSquare(n, c);
    ProductSign(n, n);
    Factored(Square(n), Square(a / n), Square(b / n), Square(c));
  }

  lemma Factored(k: real, x: real, y: real, z: real)
    requires k > 0.0 && Product(k, x) + Product(k, y) <= Product(k, z)
    ensures x + y <= z
  {
    assert Product(k, x + y) == Product(k, x) + Product(k, y);
    if z < x + y {
      ProductGrows(k, z, x + y);
    }
  }

  /** With the viewer's own settings the length is a twentieth of the full circle, but at least 0.1 and at most 1. */
  lemma DefaultLength(t: Trig, radius: real)
    ensures var length, circle := SegmentLength(t, DEFAULTS, radius), radius * (2.0 * t.pi);
      if circle <= 2.0 then length == 0.1 else if circle >= 20.0 then length == 1.0 else 20.0 * length == circle
  {
    assert radius * (2.0 * t.pi / 20.0) == radius * (2.0 * t.pi) / 20.0;
  }

  // ---------------------------------------------------------------- direction and end point

  /** G2 turns clockwise by at most a full circle; G3 the other way, not at all only towards another radius. */
  lemma Direction(t: Trig, start: Point, arc: Arc)
    requires Lawful(t)
    ensures var total := AngularTravel(t, start, arc);
      if arc.clockwise then -2.0 * t.pi <= total < 0.0
      else 0.0 <= total <= 2.0 * t.pi && (total == 0.0 ==> (start.x, start.y) != (arc.x, arc.y))
  {
    var u, w := StartRadius(arc), Offset(start, arc, Target(arc));
    assert Polar(t, Cross(u, w), Dot(u, w));
  }

  lemma FullTurn(t: Trig, a: real, b: real)
    requires Lawful(t) && b == a + 2.0 * t.pi
    ensures t.cos(b) == t.cos(a) && t.sin(b) == t.sin(a)
  {
    assert AngleSum(t, a, 2.0 * t.pi);
  }

  lemma SignedIsRawAngle(t: Trig, raw: real, clockwise: bool, samePoint: bool)
    requires Lawful(t)
    ensures var total := Signed(t.pi, raw, clockwise, samePoint);
      t.cos(total) == t.cos(raw) && t.sin(total) == t.sin(raw)
  {
    FullTurn(t, raw, raw + 2.0 * t.pi);
    FullTurn(t, raw - 2.0 * t.pi, raw);
  }

  lemma ProductGrows(a: real, x: real, y: real)
    requires a > 0.0 && x < y
    ensures Product(a, x) < Product(a, y) && Product(x, a) < Product(y, a)
  {
    assert Product(a, y - x) > 0.0;
  }

  lemma SquareGrows(a: real, b: real)
    requires 0.0 <= a < b
    ensures Product(a, a) < Product(b, b)
  {
    ProductSign(b, b);
    ProductSign(a, a);
    if a > 0.0 {
      ProductGrows(a, a, b);
      ProductGrows(b, a, b);
    }
  }

  lemma SameSquare(a: real, b: real)
    requires a >= 0.0 && b >= 0.0 && Product(a, a) == Product(b, b)
    ensures a == b
  {
    if a < b {
      SquareGrows(a, b);
    } else if b < a {
      SquareGrows(b, a);
    }
  }

  function Scaled(k: real, v: Vec): Vec { Vec(k * v.x, k * v.y) }

  lemma CrossAndDot(u: Vec, w: Vec)
    ensures Product(Dot(u, w), Dot(u, w)) + Product(Cross(u, w), Cross(u, w)) == Product(u.Norm2(), w.Norm2())
    ensures Rotate(u, Dot(u, w), Cross(u, w)) == Scaled(u.Norm2(), w)
  {
  }

  lemma ScaleRotation(u: Vec, k: real, c: real, s: real)
    ensures Rotate(u, k * c, k * s) == Scaled(k, Rotate(u, c, s))
  {
  }

  lemma Cancel(k: real, a: real, b: real)
    requires k != 0.0 && k * a == k * b
    ensures a == b
  {
  }

  lemma CancelScale(k: real, v: Vec, w: Vec)
    requires k > 0.0 && Scaled(k, v) == Scaled(k, w)
    ensures v == w
  {
    Cancel(k, v.x, w.x);
    Cancel(k, v.y, w.y);
  }

  lemma ProductSign(a: real, b: real)
    ensures (a > 0.0 && b > 0.0) || (a < 0.0 && b < 0.0) ==> Product(a, b) > 0.0
    ensures a == 0.0 ==> Product(a, b) == 0.0
  {
  }

  lemma NormSign(v: Vec)
    ensures v == Vec(0.0, 0.0) || v.Norm2() > 0.0
  {
    ProductSign(v.x, v.x);
    ProductSign(v.y, v.y);
  }

  /** (h, c, s) are the polar coordinates of w seen from u. */
  ghost predicate IsPolar(u: Vec, w: Vec, h: real, c: real, s: real) {
    && h >= 0.0 && Product(h, h) == Product(Dot(u, w), Dot(u, w)) + Product(Cross(u, w), Cross(u, w))
    && Product(h, c) == Dot(u, w) && Product(h, s) == Cross(u, w)
  }

  lemma PolarLength(k: real, h: real, dot: real, cross: real)
    requires k >= 0.0 && h >= 0.0 && Product(h, h) == Product(dot, dot) + Product(cross, cross) == Product(k, k)
    ensures h == k
  {
    SameSquare(h, k);
  }

  lemma PolarTurn(u: Vec, w: Vec, h: real, c: real, s: real)
    requires IsPolar(u, w, h, c, s)
    ensures Scaled(h, Rotate(u, c, s)) == Scaled(u.Norm2(), w)
  {
    ScaleRotation(u, h, c, s);
    CrossAndDot(u, w);
  }

  lemma ZeroTurn(c: real, s: real)
    ensures Rotate(Vec(0.0, 0.0), c, s) == Vec(0.0, 0.0)
  {
  }

  lemma TurnByComponents(u: Vec, w: Vec, h: real, c: real, s: real)
    requires u.Norm2() == w.Norm2() && IsPolar(u, w, h, c, s)
    ensures Rotate(u, c, s) == w
  {
    NormSign(u);
    NormSign(w);
    CrossAndDot(u, w);
    ZeroTurn(c, s);
    if u != Vec(0.0, 0.0) {
      PolarLength(u.Norm2(), h, Dot(u, w), Cross(u, w));
      PolarTurn(u, w, h, c, s);
      CancelScale(h, Rotate(u, c, s), w);
    }
  }

  lemma AngleIsPolar(t: Trig, u: Vec, w: Vec)
    requires Lawful(t)
    ensures IsPolar(u, w, t.hypot(Dot(u, w), Cross(u, w)), t.cos(RawAngle(t, u, w)), t.sin(RawAngle(t, u, w)))
  {
    var cross, dot := Cross(u, w), Dot(u, w);
    assert Polar(t, cross, dot);
    assert Norm(t, dot, cross);
  }

  /** Turning u by the angle between u and w gives w, when both are equally long. */
  lemma TurnOnto(t: Trig, u: Vec, w: Vec)
    requires Lawful(t) && u.Norm2() == w.Norm2()
    ensures Rotate(u, t.cos(RawAngle(t, u, w)), t.sin(RawAngle(t, u, w))) == w
  {
    hide Lawful, IsPolar, Rotate;
    AngleIsPolar(t, u, w);
    TurnByComponents(u, w, t.hypot(Dot(u, w), Cross(u, w)), t.cos(RawAngle(t, u, w)), t.sin(RawAngle(t, u, w)));
  }

  /** The n-th step of the rotation lands on the target exactly when the target is on the circle. */
  lemma RotationMeetsTarget(t: Trig, start: Point, arc: Arc, n: int)
    requires Lawful(t) && n > 0
    ensures ArcPoint(t, start, arc, n, n) == Target(arc)
       <==> Offset(start, arc, Target(arc)).Norm2() == arc.i * arc.i + arc.j * arc.j
  {
    var total := AngularTravel(t, start, arc);
    var u, w := StartRadius(arc), Offset(start, arc, Target(arc));
    EndOfRamp(n, 0.0, total);
    EndOfRamp(n, start.z, arc.z);
    EndOfRamp(n, start.e, arc.e);
    assert Times(n, total / n as real) == total;
    OnCircle(t, start, arc, n, n);
    RadiusIsRotation(t, arc, total);
    assert u.Norm2() == arc.i * arc.i + arc.j * arc.j;
    if u.Norm2() == w.Norm2() {
      SignedIsRawAngle(t, RawAngle(t, u, w), arc.clockwise, start.x == arc.x && start.y == arc.y);
      TurnOnto(t, u, w);
    }
  }
}
