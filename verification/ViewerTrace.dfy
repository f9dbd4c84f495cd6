/**
 gcode_viewer/js/prettygcode.js: what the viewer draws. A program is followed with a pen that knows nothing of layers;
 the vertices of all layers, one after the other, are the strokes of that pen.
 */
module ViewerTrace {
  import opened Text
  import opened ArcInterpolation
  import opened GcodeReading

  datatype Spot = Spot(x: Num, y: Num, z: Num)

  /** A line from one spot to another, drawn by the program line that ends at this file position. */
  datatype Stroke = Stroke(from: Spot, to: Spot, at: nat)

  datatype Pen = Pen(spot: Spot, relative: bool, at: nat, strokes: seq<Stroke>)

  const LIFTED := Pen(Spot(R(0.0), R(0.0), R(0.0)), false, 0, [])

  predicate Known(p: Spot) { p.x.R? && p.y.R? && p.z.R? }

  // ---------------------------------------------------------------- the pen

  /** A coordinate after a word: the value itself, or added to the current one in relative mode. */
  function Coordinate(args: map<char, Num>, key: char, relative: bool, current: Num): Num {
    if key !in args then current else if relative then Add(current, args[key]) else args[key]
  }

  function Goal(p: Pen, args: map<char, Num>): Spot {
    Spot(Coordinate(args, 'x', p.relative, p.spot.x), Coordinate(args, 'y', p.relative, p.spot.y),
         Coordinate(args, 'z', p.relative, p.spot.z))
  }

  /** A line between spots with known coordinates, or nothing. */
  function Draw(from: Spot, to: Spot, at: nat): seq<Stroke> {
    if Known(from) && Known(to) then [Stroke(from, to, at)] else []
  }

  /** The lines between the first k + 1 spots. */
  function DrawAlong(spots: seq<Spot>, k: nat, at: nat): seq<Stroke>
    requires k < |spots|
  {
    if k == 0 then [] else DrawAlong(spots, k - 1, at) + Draw(spots[k - 1], spots[k], at)
  }

  /** The spots of an arc around the centre that I and J name; extrusion plays no part. */
  function Track(h: Host, from: Spot, to: Spot, i: Num, j: Num, clockwise: bool): (spots: seq<Spot>)
    ensures |spots| >= 2
  {
    if !Known(from) || !Known(to) || i.NaN? || j.NaN? then [from, to]
    else
      DefaultLength(h.trig, h.trig.hypot(i.r, j.r));
      var points := ArcPoints(h.trig, DEFAULTS, Point(from.x.r, from.y.r, from.z.r, 0.0),
                              Arc(to.x.r, to.y.r, to.z.r, 0.0, i.r, j.r, clockwise));
      seq(|points|, k requires 0 <= k < |points| => Spot(R(points[k].x), R(points[k].y), R(points[k].z)))
  }

  function Offsets(args: map<char, Num>, key: char): Num { if key in args then args[key] else R(0.0) }

  /** Moves draw only with an E word, arcs in I/J form always; either leaves the pen in absolute mode. */
  function Follow(h: Host, p: Pen, line: string): Pen {
    var cmd, args := UpperAll(Tokens(line)[0]), Args(h, Tokens(line)[1..]);
    var at := p.at + |line| + 1;
    if cmd == "G0" || cmd == "G1" then
      Pen(Goal(p, args), false, at, p.strokes + if 'e' in args then Draw(p.spot, Goal(p, args), at) else [])
    else if (cmd == "G2" || cmd == "G3") && 'k' !in args && 'r' !in args then
      var track := Track(h, p.spot, Goal(p, args), Offsets(args, 'i'), Offsets(args, 'j'), cmd == "G2");
      Pen(Goal(p, args), false, at, p.strokes + DrawAlong(track, |track| - 1, at))
    else if cmd == "G90" then p.(relative := false, at := at)
    else if cmd == "G91" then p.(relative := true, at := at)
    else if cmd == "G92" then
      p.(spot := Spot(Coordinate(args, 'x', false, p.spot.x), Coordinate(args, 'y', false, p.spot.y),
                      Coordinate(args, 'z', false, p.spot.z)), at := at)
    else p.(at := at)
  }

  function Trace(h: Host, lines: seq<string>): Pen {
    if lines == [] then LIFTED else Follow(h, Trace(h, lines[..|lines| - 1]), lines[|lines| - 1])
  }

  // ---------------------------------------------------------------- vertices

  /** The numbers of one stroke, and of its mirror image below the plate. */
  function Numbers(h: Host, s: Stroke): seq<Num> {
    [s.from.x, s.from.y, s.from.z, s.to.x, s.to.y, s.to.z]
    + if h.mirror then [s.from.x, s.from.y, Neg(s.from.z), s.to.x, s.to.y, Neg(s.to.z)] else []
  }

  /** The colours of the two ends of a segment, and of its mirror image. */
  function Shades(h: Host, v: Viewer, p1: Position, p2: Position): seq<real> {
    var (c, mc) := h.shade(v.color, p1, p2, |v.layers| % 2 == 0);
    [c.r, c.g, c.b, c.r, c.g, c.b] + if h.mirror then [mc.r, mc.g, mc.b, mc.r, mc.g, mc.b] else []
  }

  function AllNumbers(h: Host, strokes: seq<Stroke>): seq<Num> {
    if strokes == [] then [] else AllNumbers(h, strokes[..|strokes| - 1]) + Numbers(h, strokes[|strokes| - 1])
  }

  function Positions(strokes: seq<Stroke>): seq<nat> {
    seq(|strokes|, k requires 0 <= k < |strokes| => strokes[k].at)
  }

  /** The vertices of all layers, and the file positions of their segments. */
  function Vertices(layers: seq<Layer>): seq<Num> {
    if layers == [] then [] else Vertices(layers[..|layers| - 1]) + layers[|layers| - 1].vertex
  }

  function FilePositions(layers: seq<Layer>): seq<nat> {
    if layers == [] then [] else FilePositions(layers[..|layers| - 1]) + layers[|layers| - 1].filePositions
  }

  function SpotOf(s: Position): Spot { Spot(s.x, s.y, s.z) }

  /** The word that stands for a coordinate, or the coordinate as it was. */
  function WordOr(args: map<char, Num>, key: char, current: Num): Num { if key in args then args[key] else current }

  /** The layers hold these strokes more than before. */
  ghost predicate Adds(h: Host, before: seq<Layer>, after: seq<Layer>, strokes: seq<Stroke>) {
    && Vertices(after) == Vertices(before) + AllNumbers(h, strokes)
    && FilePositions(after) == FilePositions(before) + Positions(strokes)
  }

  lemma NewLayerAddsNothing(h: Host, v: Viewer, z: Num)
    ensures Adds(h, v.layers, NewLayer(v, z).layers, [])
  {
    var after := NewLayer(v, z).layers;
    assert after[..|after| - 1] == v.layers;
  }

  /** A segment holds its two points in order, and their images with mirrored height. */
  lemma ExtensionHolds(h: Host, v: Viewer, layer: Layer, p1: Position, p2: Position)
    ensures var after := Extend(h, v, layer, p1, p2);
      && after.vertex == layer.vertex + Numbers(h, Stroke(SpotOf(p1), SpotOf(p2), v.filePos))
      && after.colors == layer.colors + Shades(h, v, p1, p2)
      && after.filePositions == layer.filePositions + [v.filePos]
  {
    var after := Extend(h, v, layer, p1, p2);
    var first := [p1.x, p1.y, p1.z] + [p2.x, p2.y, p2.z];
    assert first == [p1.x, p1.y, p1.z, p2.x, p2.y, p2.z];
    assert after.vertex == layer.vertex + (first
      + if h.mirror then [p1.x, p1.y, Neg(p1.z)] + [p2.x, p2.y, Neg(p2.z)] else []);
    var (c, mc) := h.shade(v.color, p1, p2, |v.layers| % 2 == 0);
    assert [c.r, c.g, c.b] + [c.r, c.g, c.b] == [c.r, c.g, c.b, c.r, c.g, c.b];
    assert [mc.r, mc.g, mc.b] + [mc.r, mc.g, mc.b] == [mc.r, mc.g, mc.b, mc.r, mc.g, mc.b];
    assert after.colors == layer.colors + ([c.r, c.g, c.b, c.r, c.g, c.b]
      + if h.mirror then [mc.r, mc.g, mc.b, mc.r, mc.g, mc.b] else []);
  }

  lemma OneStroke(h: Host, s: Stroke)
    ensures AllNumbers(h, [s]) == Numbers(h, s) && Positions([s]) == [s.at]
    ensures AllNumbers(h, []) == [] && Positions([]) == []
  {
    assert [s][..0] == [];
    hide Numbers;
  }

  lemma AppendIsDrawn(h: Host, v: Viewer, p1: Position, p2: Position)
    requires v.layers != []
    ensures Adds(h, v.layers, Append(h, v, p1, p2).layers, Draw(SpotOf(p1), SpotOf(p2), v.filePos))
  {
    var n, stroke := |v.layers| - 1, Stroke(SpotOf(p1), SpotOf(p2), v.filePos);
    if BadPoint(p1) || BadPoint(p2) {
      assert Draw(SpotOf(p1), SpotOf(p2), v.filePos) == [];
      NothingIsAdded(h, v.layers);
    } else {
      assert Draw(SpotOf(p1), SpotOf(p2), v.filePos) == [stroke];
      ExtensionHolds(h, v, v.layers[n], p1, p2);
      hide Extend, Numbers, Adds;
      LastLayerGrows(h, v.layers, Extend(h, v, v.layers[n], p1, p2), stroke);
    }
  }

  lemma LastLayerGrows(h: Host, layers: seq<Layer>, grown: Layer, stroke: Stroke)
    requires layers != []
    requires grown.vertex == layers[|layers| - 1].vertex + Numbers(h, stroke)
    requires grown.filePositions == layers[|layers| - 1].filePositions + [stroke.at]
    ensures Adds(h, layers, layers[|layers| - 1 := grown], [stroke])
  {
    hide Numbers;
    OneStroke(h, stroke);
    var n := |layers| - 1;
    var after, front := layers[n := grown], layers[..n];
    assert after[..n] == front;
    assert Vertices(after) == Vertices(front) + grown.vertex && Vertices(layers) == Vertices(front) + layers[n].vertex;
    assert FilePositions(after) == FilePositions(front) + grown.filePositions;
    assert FilePositions(layers) == FilePositions(front) + layers[n].filePositions;
    hide Vertices, FilePositions, AllNumbers, Positions;
  }

  lemma NothingIsAdded(h: Host, layers: seq<Layer>)
    ensures Adds(h, layers, layers, [])
  {
    assert AllNumbers(h, []) == [] && Positions([]) == [];
  }

  lemma {:induction false} NumbersAppend(h: Host, a: seq<Stroke>, b: seq<Stroke>)
    ensures AllNumbers(h, a + b) == AllNumbers(h, a) + AllNumbers(h, b)
    decreases |b|
  {
    hide Numbers;
    if b == [] {
      assert a + b == a;
    } else {
      assert (a + b)[..|a + b| - 1] == a + b[..|b| - 1];
      NumbersAppend(h, a, b[..|b| - 1]);
    }
  }

  lemma AddsTwice(h: Host, one: seq<Layer>, two: seq<Layer>, three: seq<Layer>, a: seq<Stroke>, b: seq<Stroke>)
    requires Adds(h, one, two, a) && Adds(h, two, three, b)
    ensures Adds(h, one, three, a + b)
  {
    PositionsAppend(a, b);
    NumbersAppend(h, a, b);
    hide AllNumbers, Vertices, FilePositions, Positions;
    assert Vertices(one) + AllNumbers(h, a) + AllNumbers(h, b) == Vertices(one) + (AllNumbers(h, a) + AllNumbers(h, b));
    assert FilePositions(one) + Positions(a) + Positions(b) == FilePositions(one) + (Positions(a) + Positions(b));
  }

  lemma PositionsAppend(a: seq<Stroke>, b: seq<Stroke>)
    ensures Positions(a + b) == Positions(a) + Positions(b)
  {
  }

  lemma SegmentIsDrawn(h: Host, v: Viewer, p1: Position, p2: Position)
    ensures Adds(h, v.layers, AddSegment(h, v, p1, p2).layers, Draw(SpotOf(p1), SpotOf(p2), v.filePos))
  {
    var u := if v.layers == [] then NewLayer(v, p1.z) else v;
    assert u.filePos == v.filePos && u.layers != [];
    AppendIsDrawn(h, u, p1, p2);
    if v.layers == [] {
      NewLayerAddsNothing(h, v, p1.z);
      hide NewLayer, Append, Adds, Draw;
      var drawn := Draw(SpotOf(p1), SpotOf(p2), v.filePos);
      AddsTwice(h, v.layers, u.layers, Append(h, u, p1, p2).layers, [], drawn);
      assert [] + drawn == drawn;
    }
  }

  /** The spots of a path. */
  function SpotsOf(points: seq<Position>): seq<Spot> {
    seq(|points|, k requires 0 <= k < |points| => SpotOf(points[k]))
  }

  lemma {:induction false} SegmentsAreDrawn(h: Host, v: Viewer, points: seq<Position>, k: nat)
    requires k < |points|
    ensures AddSegments(h, v, points, k).filePos == v.filePos
    ensures Adds(h, v.layers, AddSegments(h, v, points, k).layers, DrawAlong(SpotsOf(points), k, v.filePos))
  {
    hide Adds, Draw;
    if k == 0 {
      NothingIsAdded(h, v.layers);
    } else {
      SegmentsAreDrawn(h, v, points, k - 1);
      var u := AddSegments(h, v, points, k - 1);
      assert AddSegment(h, u, points[k - 1], points[k]).filePos == v.filePos;
      hide AddSegment;
      SegmentIsDrawn(h, u, points[k - 1], points[k]);
      AddsTwice(h, v.layers, u.layers, AddSegments(h, v, points, k).layers,
                DrawAlong(SpotsOf(points), k - 1, v.filePos),
                Draw(SpotOf(points[k - 1]), SpotOf(points[k]), v.filePos));
    }
  }

  // ---------------------------------------------------------------- one line

  /** The viewer stands where the pen stands and holds its strokes. */
  ghost predicate Follows(h: Host, v: Viewer, p: Pen) {
    && SpotOf(v.state) == p.spot && v.state.relative == p.relative && v.filePos == p.at
    && Vertices(v.layers) == AllNumbers(h, p.strokes) && FilePositions(v.layers) == Positions(p.strokes)
  }

  lemma MoveFollows(h: Host, v: Viewer, args: map<char, Num>)
    ensures var w := Move(h, v, args);
      var goal := Goal(Pen(SpotOf(v.state), v.state.relative, 0, []), args);
      && SpotOf(w.state) == goal && !w.state.relative && w.filePos == v.filePos
      && Adds(h, v.layers, w.layers, if 'e' in args then Draw(SpotOf(v.state), goal, v.filePos) else [])
  {
    var next := Destination(v.state, args);
    var goal := Goal(Pen(SpotOf(v.state), v.state.relative, 0, []), args);
    assert SpotOf(next) == goal;
    hide AddSegment, Adds, Goal, Destination, Draw, Positive, Differs, Delta;
    var u := MoveAddsSegment(h, v, args);
    if 'e' in args {
      var drawn := Draw(SpotOf(v.state), goal, v.filePos);
      SegmentIsDrawn(h, u, v.state, next);
      AddsTwice(h, v.layers, u.layers, AddSegment(h, u, v.state, next).layers, [], drawn);
      assert [] + drawn == drawn;
    }
  }

  /** A move adds its segment to what it met or to a layer it has just begun. */
  lemma MoveAddsSegment(h: Host, v: Viewer, args: map<char, Num>) returns (u: Viewer)
    ensures var w, next := Move(h, v, args), Destination(v.state, args);
      && w.state == next && w.filePos == v.filePos == u.filePos && Adds(h, v.layers, u.layers, [])
      && w.layers == if 'e' in args then AddSegment(h, u, v.state, next).layers else u.layers
  {
    var next := Destination(v.state, args);
    hide Adds, Destination;
    u := if Positive(Delta(v.state.relative, v.state.e, next.e))
            && (v.layers == [] || Differs(next.z, v.layers[|v.layers| - 1].z)) then NewLayer(v, next.z) else v;
    NewLayerAddsNothing(h, v, next.z);
    NothingIsAdded(h, v.layers);
  }

  /** Where an arc runs does not depend on what is extruded along it. */
  lemma ArcIgnoresExtrusion(t: Trig, start: Point, arc: Arc)
    requires SegmentLength(t, DEFAULTS, t.hypot(arc.i, arc.j)) > 0.0
    ensures var dry := ArcPoints(t, DEFAULTS, start.(e := 0.0), arc.(e := 0.0));
      var points := ArcPoints(t, DEFAULTS, start, arc);
      |dry| == |points| && forall k :: 0 <= k < |dry| ==> dry[k] == points[k].(e := 0.0)
  {
    var n := Segments(t, DEFAULTS, start, arc);
    assert Segments(t, DEFAULTS, start.(e := 0.0), arc.(e := 0.0)) == n;
    if n > 1 {
      forall k | 0 <= k < n - 1
        ensures Interior(t, start.(e := 0.0), arc.(e := 0.0), n)[k] == Interior(t, start, arc, n)[k].(e := 0.0)
      {
        DryPoint(t, start, arc, n, k + 1);
      }
    }
    hide Segments, SegmentLength, ArcPoint;
  }

  lemma DryPoint(t: Trig, start: Point, arc: Arc, n: int, k: int)
    requires n > 0
    ensures ArcPoint(t, start.(e := 0.0), arc.(e := 0.0), n, k) == ArcPoint(t, start, arc, n, k).(e := 0.0)
  {
    hide Signed, RawAngle;
    assert Times(k, 0.0 / n as real) == 0.0;
  }

  function SpotAt(p: Point): Spot { Spot(R(p.x), R(p.y), R(p.z)) }

  lemma TrackSpots(h: Host, start: Point, arc: Arc)
    ensures SegmentLength(h.trig, DEFAULTS, h.trig.hypot(arc.i, arc.j)) > 0.0
    ensures var points := ArcPoints(h.trig, DEFAULTS, start, arc);
      var track := Track(h, SpotAt(start), SpotAt(Target(arc)), R(arc.i), R(arc.j), arc.clockwise);
      |track| == |points| && forall k :: 0 <= k < |points| ==> track[k] == SpotAt(points[k])
  {
    DefaultLength(h.trig, h.trig.hypot(arc.i, arc.j));
    ArcIgnoresExtrusion(h.trig, start, arc);
    assert start.(e := 0.0) == Point(start.x, start.y, start.z, 0.0);
    assert arc.(e := 0.0) == Arc(arc.x, arc.y, arc.z, 0.0, arc.i, arc.j, arc.clockwise);
    hide ArcPoints, SegmentLength;
  }

  lemma PathSpots(h: Host, s: Position, to: Position, i: Num, j: Num, clockwise: bool)
    requires AllReal(s, to, i, j)
    ensures SegmentLength(h.trig, DEFAULTS, h.trig.hypot(i.r, j.r)) > 0.0
    ensures var path := Interpolate(h, s, to, i, j, clockwise);
      var points := ArcPoints(h.trig, DEFAULTS, Point(s.x.r, s.y.r, s.z.r, OrZero(s.e)),
                              Arc(to.x.r, to.y.r, to.z.r, OrZero(to.e), i.r, j.r, clockwise));
      |path| == |points| && forall k :: 0 <= k < |points| ==> SpotOf(path[k]) == SpotAt(points[k])
  {
    hide ArcPoints, SegmentLength, OrZero;
    DefaultLength(h.trig, h.trig.hypot(i.r, j.r));
    var start := Point(s.x.r, s.y.r, s.z.r, OrZero(s.e));
    var arc := Arc(to.x.r, to.y.r, to.z.r, OrZero(to.e), i.r, j.r, clockwise);
    EndsOfArc(h.trig, start, arc);
    var path, points := Interpolate(h, s, to, i, j, clockwise), ArcPoints(h.trig, DEFAULTS, start, arc);
    assert path[0] == s && path[|path| - 1] == to && |path| == |points|;
    forall k | 0 < k < |points| - 1
      ensures SpotOf(path[k]) == SpotAt(points[k])
    {
    }
  }

  lemma InterpolatedIsTrack(h: Host, s: Position, to: Position, i: Num, j: Num, clockwise: bool)
    ensures SpotsOf(Interpolate(h, s, to, i, j, clockwise)) == Track(h, SpotOf(s), SpotOf(to), i, j, clockwise)
  {
    if AllReal(s, to, i, j) {
      hide ArcPoints, SegmentLength, Interpolate, Track;
      var start := Point(s.x.r, s.y.r, s.z.r, OrZero(s.e));
      var arc := Arc(to.x.r, to.y.r, to.z.r, OrZero(to.e), i.r, j.r, clockwise);
      assert SpotAt(start) == SpotOf(s) && SpotAt(Target(arc)) == SpotOf(to);
      TrackSpots(h, start, arc);
      PathSpots(h, s, to, i, j, clockwise);
    }
  }

  lemma PathIsTrack(h: Host, s: Position, args: map<char, Num>, clockwise: bool)
    ensures var goal := Goal(Pen(SpotOf(s), s.relative, 0, []), args);
      var path := ArcPath(h, s, args, clockwise);
      && SpotsOf(path) == Track(h, SpotOf(s), goal, Offsets(args, 'i'), Offsets(args, 'j'), clockwise)
      && SpotOf(path[|path| - 1]) == goal && !path[|path| - 1].relative
  {
    assert SpotOf(Destination(s, args)) == Goal(Pen(SpotOf(s), s.relative, 0, []), args);
    hide Interpolate, Track;
    InterpolatedIsTrack(h, s, Destination(s, args), Offsets(args, 'i'), Offsets(args, 'j'), clockwise);
  }

  lemma EndsOfArc(t: Trig, start: Point, arc: Arc)
    requires SegmentLength(t, DEFAULTS, t.hypot(arc.i, arc.j)) > 0.0
    ensures var points := ArcPoints(t, DEFAULTS, start, arc);
      |points| >= 2 && points[0] == start && points[|points| - 1] == Target(arc)
  {
    hide Segments, Interior, SegmentLength;
  }

  lemma ArcFollows(h: Host, v: Viewer, args: map<char, Num>, clockwise: bool)
    requires 'k' !in args && 'r' !in args
    ensures var w := ArcMove(h, v, args, clockwise);
      var goal := Goal(Pen(SpotOf(v.state), v.state.relative, 0, []), args);
      var track := Track(h, SpotOf(v.state), goal, Offsets(args, 'i'), Offsets(args, 'j'), clockwise);
      && SpotOf(w.state) == goal && !w.state.relative && w.filePos == v.filePos
      && Adds(h, v.layers, w.layers, DrawAlong(track, |track| - 1, v.filePos))
  {
    var path := ArcPath(h, v.state, args, clockwise);
    PathIsTrack(h, v.state, args, clockwise);
    hide ArcPath, Track, Goal, Adds, AddSegments, DrawAlong;
    SegmentsAreDrawn(h, v, path, |path| - 1);
  }

  lemma FollowsOn(h: Host, v: Viewer, p: Pen, w: Viewer, q: Pen, strokes: seq<Stroke>)
    requires Follows(h, v, p) && Adds(h, v.layers, w.layers, strokes) && q.strokes == p.strokes + strokes
    requires SpotOf(w.state) == q.spot && w.state.relative == q.relative && w.filePos == q.at
    ensures Follows(h, w, q)
  {
    NumbersAppend(h, p.strokes, strokes);
    PositionsAppend(p.strokes, strokes);
    hide AllNumbers, Positions, Vertices, FilePositions;
  }

  lemma MoveLineFollows(h: Host, v: Viewer, p: Pen, line: string)
    requires Follows(h, v, p)
    requires UpperCommand(Tokens(line)) == "G0" || UpperCommand(Tokens(line)) == "G1"
    ensures Follows(h, Line(h, v, line), Follow(h, p, line))
  {
    var u, args := Advance(v, line), Args(h, Tokens(line)[1..]);
    var w, q := Move(h, u, args), Follow(h, p, line);
    assert Line(h, v, line) == w;
    assert u.layers == v.layers && u.state == v.state && u.filePos == q.at;
    GoalIgnoresStrokes(p, args);
    MoveFollows(h, u, args);
    var strokes := if 'e' in args then Draw(p.spot, Goal(p, args), u.filePos) else [];
    assert q == Pen(Goal(p, args), false, u.filePos, p.strokes + strokes);
    hide Tokens, Args, Move, Goal, Adds, Advance, Draw, Follow, Line;
    FollowsOn(h, v, p, w, q, strokes);
  }

  lemma ArcLineFollows(h: Host, v: Viewer, p: Pen, line: string)
    requires Follows(h, v, p)
    requires UpperCommand(Tokens(line)) == "G2" || UpperCommand(Tokens(line)) == "G3"
    requires 'k' !in Args(h, Tokens(line)[1..]) && 'r' !in Args(h, Tokens(line)[1..])
    ensures Follows(h, Line(h, v, line), Follow(h, p, line))
  {
    hide Track, Goal, DrawAlong, ArcMove, Args, CommentColor;
    var u, args, clockwise := Advance(v, line), Args(h, Tokens(line)[1..]), UpperCommand(Tokens(line)) == "G2";
    var w, q := ArcMove(h, u, args, clockwise), Follow(h, p, line);
    assert Line(h, v, line) == w;
    assert u.layers == v.layers && u.state == v.state && u.filePos == q.at;
    GoalIgnoresStrokes(p, args);
    ArcFollows(h, u, args, clockwise);
    var track := Track(h, p.spot, Goal(p, args), Offsets(args, 'i'), Offsets(args, 'j'), clockwise);
    var strokes := DrawAlong(track, |track| - 1, u.filePos);
    assert q == Pen(Goal(p, args), false, u.filePos, p.strokes + strokes);
    hide Tokens, Adds, Advance, Follow, Line;
    FollowsOn(h, v, p, w, q, strokes);
  }

  lemma OtherLineFollows(h: Host, v: Viewer, p: Pen, line: string)
    requires Follows(h, v, p)
    requires var cmd, args := UpperCommand(Tokens(line)), Args(h, Tokens(line)[1..]);
      cmd != "G0" && cmd != "G1" && (cmd == "G2" || cmd == "G3" ==> 'k' in args || 'r' in args)
    ensures Follows(h, Line(h, v, line), Follow(h, p, line))
  {
    var u, q := Advance(v, line), Follow(h, p, line);
    var w := Execute(h, u, Tokens(line));
    assert Line(h, v, line) == w && q.strokes == p.strokes + [];
    OtherLine(h, u, Args(h, Tokens(line)[1..]), Tokens(line));
    assert u.layers == v.layers && u.state == v.state && u.filePos == q.at;
    hide Tokens, Args, Execute, Advance, Line, CommentColor, Adds;
    FollowsOn(h, v, p, w, q, []);
  }

  lemma LineFollows(h: Host, v: Viewer, p: Pen, line: string)
    requires Follows(h, v, p)
    ensures Follows(h, Line(h, v, line), Follow(h, p, line))
  {
    var cmd, args := UpperCommand(Tokens(line)), Args(h, Tokens(line)[1..]);
    hide Tokens, Args, Follow, Line, Follows, UpperCommand;
    if cmd == "G0" || cmd == "G1" {
      MoveLineFollows(h, v, p, line);
    } else if (cmd == "G2" || cmd == "G3") && 'k' !in args && 'r' !in args {
      ArcLineFollows(h, v, p, line);
    } else {
      OtherLineFollows(h, v, p, line);
    }
  }

  lemma OtherLine(h: Host, v: Viewer, args: map<char, Num>, tokens: seq<string>)
    requires |tokens| > 0 && args == Args(h, tokens[1..])
    requires var cmd := UpperCommand(tokens);
      cmd != "G0" && cmd != "G1" && (cmd == "G2" || cmd == "G3" ==> 'k' in args || 'r' in args)
    ensures var w, cmd := Execute(h, v, tokens), UpperCommand(tokens);
      && w.layers == v.layers && w.filePos == v.filePos && Adds(h, v.layers, w.layers, [])
      && w.state.relative == (if cmd == "G90" then false else if cmd == "G91" then true else v.state.relative)
      && SpotOf(w.state) == if cmd == "G92" then
           Spot(WordOr(args, 'x', v.state.x), WordOr(args, 'y', v.state.y), WordOr(args, 'z', v.state.z))
         else SpotOf(v.state)
  {
    hide Args, Move, UpperCommand;
    assert AllNumbers(h, []) == [] && Positions([]) == [];
    assert Adds(h, v.layers, v.layers, []);
  }

  lemma GoalIgnoresStrokes(p: Pen, args: map<char, Num>)
    ensures Goal(p, args) == Goal(Pen(p.spot, p.relative, 0, []), args)
  {
  }

  /**
   On every program: the vertices of all layers, in order, are the strokes of the pen, each with its mirror image when
   the mirror is on, and each segment carries the position of the line that drew it.
   */
  lemma {:induction false} ViewerDrawsTheTrace(h: Host, lines: seq<string>)
    ensures Follows(h, Lines(h, EMPTY, lines), Trace(h, lines))
  {
    if lines == [] {
      assert AllNumbers(h, []) == [] && Positions([]) == [];
    } else {
      hide Line, Follow, Follows;
      ViewerDrawsTheTrace(h, lines[..|lines| - 1]);
      LineFollows(h, Lines(h, EMPTY, lines[..|lines| - 1]), Trace(h, lines[..|lines| - 1]), lines[|lines| - 1]);
    }
  }

  // ---------------------------------------------------------------- one move

  /**
   A move with an E word in absolute mode between known spots: the current layer's last numbers are the old coordinates
   and the new ones, followed by the same with the heights negated when the mirror is on.
   */
  lemma MoveIsDrawn(h: Host, v: Viewer, args: map<char, Num>)
    requires !v.state.relative && 'e' in args && v.state.x.R? && v.state.y.R? && v.state.z.R?
    requires forall key <- ['x', 'y', 'z'] :: key in args ==> args[key].R?
    ensures var w, s := Move(h, v, args), v.state;
      var x, y, z := WordOr(args, 'x', s.x), WordOr(args, 'y', s.y), WordOr(args, 'z', s.z);
      && w.state.x == x && w.state.y == y && w.state.z == z && w.layers != []
      && var vertex := w.layers[|w.layers| - 1].vertex;
        if h.mirror then
          |vertex| >= 12
          && vertex[|vertex| - 12..] == [s.x, s.y, s.z, x, y, z, s.x, s.y, Neg(s.z), x, y, Neg(z)]
        else |vertex| >= 6 && vertex[|vertex| - 6..] == [s.x, s.y, s.z, x, y, z]
  {
    hide AddSegment, Numbers, WordOr;
    var s, next := v.state, Destination(v.state, args);
    var u := MoveIsSegment(h, v, args);
    hide BadPoint, Destination, Move;
    LastIsSegment(h, u, s, next);
    NumbersOf(h, Stroke(SpotOf(s), SpotOf(next), u.filePos));
  }

  lemma MoveIsSegment(h: Host, v: Viewer, args: map<char, Num>) returns (u: Viewer)
    requires !v.state.relative && 'e' in args && v.state.x.R? && v.state.y.R? && v.state.z.R?
    requires forall key <- ['x', 'y', 'z'] :: key in args ==> args[key].R?
    ensures var s, next := v.state, Destination(v.state, args);
      && next.x == WordOr(args, 'x', s.x) && next.y == WordOr(args, 'y', s.y) && next.z == WordOr(args, 'z', s.z)
      && !BadPoint(s) && !BadPoint(next) && u.color == v.color
      && Move(h, v, args) == AddSegment(h, u, s, next).(state := next)
  {
    hide AddSegment, NewLayer, Delta, Positive, Differs;
    var s, next := v.state, Destination(v.state, args);
    assert 'x' in ['x', 'y', 'z'] && 'y' in ['x', 'y', 'z'] && 'z' in ['x', 'y', 'z'];
    assert next.x == WordOr(args, 'x', s.x) && next.y == WordOr(args, 'y', s.y) && next.z == WordOr(args, 'z', s.z);
    assert !BadPoint(s) && !BadPoint(next);
    hide BadPoint, Destination, WordOr;
    NewLayerKeeps(v, next.z);
    u := if Positive(Delta(s.relative, s.e, next.e)) && (v.layers == [] || Differs(next.z, v.layers[|v.layers| - 1].z))
         then NewLayer(v, next.z) else v;
  }

  /** Its two ends get the colours that the shading gives this segment in the colour in force, twice when mirrored. */
  lemma MoveIsShaded(h: Host, v: Viewer, args: map<char, Num>)
    requires !v.state.relative && 'e' in args && v.state.x.R? && v.state.y.R? && v.state.z.R?
    requires forall key <- ['x', 'y', 'z'] :: key in args ==> args[key].R?
    ensures var w := Move(h, v, args);
      && w.layers != []
      && var (c, mc) := h.shade(v.color, v.state, w.state, |w.layers| % 2 == 0);
        var colors := w.layers[|w.layers| - 1].colors;
        var shades := [c.r, c.g, c.b, c.r, c.g, c.b] + if h.mirror then [mc.r, mc.g, mc.b, mc.r, mc.g, mc.b] else [];
        |colors| >= |shades| && colors[|colors| - |shades|..] == shades
  {
    hide AddSegment, WordOr;
    var u := MoveIsSegment(h, v, args);
    hide BadPoint, Destination, Move;
    LastIsSegment(h, u, v.state, Destination(v.state, args));
    hide Numbers;
  }

  lemma NumbersOf(h: Host, s: Stroke)
    ensures Numbers(h, s) ==
      if h.mirror then [s.from.x, s.from.y, s.from.z, s.to.x, s.to.y, s.to.z,
                        s.from.x, s.from.y, Neg(s.from.z), s.to.x, s.to.y, Neg(s.to.z)]
      else [s.from.x, s.from.y, s.from.z, s.to.x, s.to.y, s.to.z]
  {
  }

  lemma LastIsSegment(h: Host, v: Viewer, p1: Position, p2: Position)
    requires !BadPoint(p1) && !BadPoint(p2)
    ensures var w := AddSegment(h, v, p1, p2);
      && w.layers != []
      && var vertex, numbers := w.layers[|w.layers| - 1].vertex, Numbers(h, Stroke(SpotOf(p1), SpotOf(p2), v.filePos));
        |vertex| >= |numbers| && vertex[|vertex| - |numbers|..] == numbers
    ensures var w := AddSegment(h, v, p1, p2);
      var colors, shades := w.layers[|w.layers| - 1].colors, Shades(h, w, p1, p2);
      |colors| >= |shades| && colors[|colors| - |shades|..] == shades && w.color == v.color
  {
    var u := if v.layers == [] then NewLayer(v, p1.z) else v;
    assert u.filePos == v.filePos && u.layers != [];
    ExtensionHolds(h, u, u.layers[|u.layers| - 1], p1, p2);
    hide Extend, Numbers, NewLayer;
    assert |AddSegment(h, v, p1, p2).layers| == |u.layers| && u.color == v.color by { NewLayerKeeps(v, p1.z); }
  }

  lemma NewLayerKeeps(v: Viewer, z: Num)
    ensures NewLayer(v, z).color == v.color && NewLayer(v, z).state == v.state
  {
  }

  // ---------------------------------------------------------------- the colour a comment selects

  lemma {:induction false} ContainsExactlyWhen(s: string, sub: string)
    ensures Contains(s, sub) <==> exists i :: 0 <= i <= |s| && sub <= s[i..]
  {
    if sub <= s {
      assert sub <= s[0..];
    } else if s != [] {
      ContainsExactlyWhen(s[1..], sub);
      if i :| 0 <= i <= |s[1..]| && sub <= s[1..][i..] {
        assert s[i + 1..] == s[1..][i..];
      }
      if i :| 0 <= i <= |s| && sub <= s[i..] {
        assert s[0..] == s && (i > 0 ==> s[1..][i - 1..] == s[i..]);
      }
    }
  }

  /** The first of these words, from the i-th on, that occurs in the text. */
  function FirstWord(text: string, words: seq<(string, Color)>, i: nat, otherwise: Color): Color
    requires i <= |words|
    decreases |words| - i
  {
    if i == |words| then otherwise
    else if exists at :: 0 <= at <= |text| && words[i].0 <= text[at..] then words[i].1
    else FirstWord(text, words, i + 1, otherwise)
  }

  lemma FirstWordStep(text: string, words: seq<(string, Color)>, i: nat, otherwise: Color)
    requires i < |words|
    ensures FirstWord(text, words, i, otherwise)
         == if Contains(text, words[i].0) then words[i].1 else FirstWord(text, words, i + 1, otherwise)
  {
    ContainsExactlyWhen(text, words[i].0);
    hide Contains;
  }

  lemma {:induction false} SemicolonIsFound(line: string)
    ensures Contains(line, ";") <==> ';' in line
  {
    if line != [] {
      SemicolonIsFound(line[1..]);
      assert ';' in line <==> line[0] == ';' || ';' in line[1..];
    }
  }

  /** Of a line with a semicolon the first word of this list decides, in whatever case and wherever it stands. */
  lemma CommentSelects(line: string, color: Color)
    ensures CommentColor(line, color) ==
      if ';' !in line then color
      else FirstWord(LowerAll(line), [("inner", Green), ("outer", Red), ("perimeter", Red), ("fill", Orange),
                                      ("skin", Yellow), ("support", SkyBlue), ("skirt", SkyBlue)], 0, color)
  {
    var text := LowerAll(line);
    var words := [("inner", Green), ("outer", Red), ("perimeter", Red), ("fill", Orange),
                  ("skin", Yellow), ("support", SkyBlue), ("skirt", SkyBlue)];
    SemicolonIsFound(line);
    hide Contains, LowerAll;
    forall i | 0 <= i < |words|
      ensures FirstWord(text, words, i, color)
           == if Contains(text, words[i].0) then words[i].1 else FirstWord(text, words, i + 1, color)
    {
      FirstWordStep(text, words, i, color);
    }
    assert FirstWord(text, words, 7, color) == color;
    hide FirstWord;
    assert FirstWord(text, words, 6, color) == if Contains(text, "skirt") then SkyBlue else color;
    assert FirstWord(text, words, 5, color)
        == if Contains(text, "support") then SkyBlue else FirstWord(text, words, 6, color);
    assert FirstWord(text, words, 4, color)
        == if Contains(text, "skin") then Yellow else FirstWord(text, words, 5, color);
    assert FirstWord(text, words, 3, color)
        == if Contains(text, "fill") then Orange else FirstWord(text, words, 4, color);
    assert FirstWord(text, words, 2, color)
        == if Contains(text, "perimeter") then Red else FirstWord(text, words, 3, color);
    assert FirstWord(text, words, 1, color)
        == if Contains(text, "outer") then Red else FirstWord(text, words, 2, color);
  }
}
