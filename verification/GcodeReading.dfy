/**
 gcode_viewer/js/prettygcode.js, `GCodeParser`: what one line, one chunk and one position sync do
 to the viewer, as functions of the viewer's state. The class in GcodeParser.dfy refines them.
 */
module GcodeReading {
  import opened Text
  import opened ArcInterpolation

  /** A JavaScript number without infinities. */
  datatype Num = NaN | R(r: real)

  function Add(a: Num, b: Num): Num { if a.R? && b.R? then R(a.r + b.r) else NaN }
  function Sub(a: Num, b: Num): Num { if a.R? && b.R? then R(a.r - b.r) else NaN }
  function Neg(a: Num): Num { if a.R? then R(-a.r) else NaN }
  predicate Positive(a: Num) { a.R? && a.r > 0.0 }
  /** `a != b`: NaN differs from everything, itself included. */
  predicate Differs(a: Num, b: Num) { a.NaN? || b.NaN? || a.r != b.r }

  datatype Position = Position(x: Num, y: Num, z: Num, e: Num, f: Num, relative: bool)

  datatype Color = White | Green | Red | Orange | Yellow | SkyBlue

  datatype Rgb = Rgb(r: real, g: real, b: real)

  datatype Layer = Layer(z: Num, vertex: seq<Num>, colors: seq<real>, filePositions: seq<nat>)

  /** The userData of one drawn object. */
  datatype Drawn = Drawn(layerZ: Num, layerNumber: nat, numLines: int, filePositions: seq<nat>)

  /** Library functions, the shading arithmetic and the mirror setting. */
  datatype Host = Host(parseFloat: string -> Num, shade: (Color, Position, Position, bool) -> (Rgb, Rgb),
                       trig: Trig, mirror: bool)
  {
    function Copies(): nat { if mirror then 2 else 1 }
  }

  /** `layers[layers.length - 1]` is the object `currentLayer`; no layer means undefined. */
  datatype Viewer = Viewer(state: Position, layers: seq<Layer>, color: Color, filePos: nat,
                           objects: seq<Drawn>)

  const ORIGIN := Position(R(0.0), R(0.0), R(0.0), R(0.0), R(0.0), false)

  const EMPTY := Viewer(ORIGIN, [], White, 0, [])

  /** The viewer together with the unfinished last line, `previousPiece`. */
  datatype Session = Session(viewer: Viewer, previousPiece: string)

  // ---------------------------------------------------------------- layers and segments

  function DrawnFrom(layer: Layer, number: nat): seq<Drawn> {
    if |layer.vertex| > 2 then [Drawn(layer.z, number, |layer.vertex| / 6, layer.filePositions)] else []
  }

  function Flush(v: Viewer): Viewer {
    if v.layers == [] then v
    else v.(objects := v.objects + DrawnFrom(v.layers[|v.layers| - 1], |v.layers|))
  }

  function NewLayer(v: Viewer, z: Num): Viewer {
    Flush(v).(layers := v.layers + [Layer(z, [], [], [])])
  }

  predicate BadPoint(p: Position) { p.x.NaN? || p.y.NaN? || p.z.NaN? }

  function Extend(h: Host, v: Viewer, layer: Layer, p1: Position, p2: Position): Layer {
    var (c, mc) := h.shade(v.color, p1, p2, |v.layers| % 2 == 0);
    Layer(layer.z,
          layer.vertex + [p1.x, p1.y, p1.z] + [p2.x, p2.y, p2.z]
            + (if h.mirror then [p1.x, p1.y, Neg(p1.z)] + [p2.x, p2.y, Neg(p2.z)] else []),
          layer.colors + [c.r, c.g, c.b] + [c.r, c.g, c.b]
            + (if h.mirror then [mc.r, mc.g, mc.b] + [mc.r, mc.g, mc.b] else []),
          layer.filePositions + [v.filePos])
  }

  function Append(h: Host, v: Viewer, p1: Position, p2: Position): Viewer
    requires v.layers != []
  {
    if BadPoint(p1) || BadPoint(p2) then v
    else v.(layers := v.layers[|v.layers| - 1 := Extend(h, v, v.layers[|v.layers| - 1], p1, p2)])
  }

  function AddSegment(h: Host, v: Viewer, p1: Position, p2: Position): Viewer {
    Append(h, if v.layers == [] then NewLayer(v, p1.z) else v, p1, p2)
  }

  /** The segments between the first k + 1 points. */
  function AddSegments(h: Host, v: Viewer, points: seq<Position>, k: nat): Viewer
    requires k < |points|
  {
    if k == 0 then v else AddSegment(h, AddSegments(h, v, points, k - 1), points[k - 1], points[k])
  }

  // ---------------------------------------------------------------- one line

  function SkipToLineEnd(s: string): (rest: string)
    ensures |rest| <= |s|
  {
    if s == [] || IsLineEnd(s[0]) then s else SkipToLineEnd(s[1..])
  }

  /** `line.replace(/;.+/g, '')` */
  function StripComments(s: string): string
    decreases |s|
  {
    if s == [] then []
    else if s[0] == ';' && |s| > 1 && !IsLineEnd(s[1]) then StripComments(SkipToLineEnd(s[1..]))
    else [s[0]] + StripComments(s[1..])
  }

  function Tokens(line: string): seq<string> { Split(StripComments(line), ' ') }

  function Args(h: Host, tokens: seq<string>): map<char, Num> {
    if tokens == [] then map[]
    else
      var before, token := Args(h, tokens[..|tokens| - 1]), tokens[|tokens| - 1];
      if token == [] then before else before[Lower(token[0]) := h.parseFloat(token[1..])]
  }

  function CommentColor(line: string, color: Color): Color {
    if !Contains(line, ";") then color
    else
      var lower := LowerAll(line);
      if Contains(lower, "inner") then Green
      else if Contains(lower, "outer") then Red
      else if Contains(lower, "perimeter") then Red
      else if Contains(lower, "fill") then Orange
      else if Contains(lower, "skin") then Yellow
      else if Contains(lower, "support") then SkyBlue
      else if Contains(lower, "skirt") then SkyBlue
      else color
  }

  function Delta(relative: bool, v1: Num, v2: Num): Num { if relative then v2 else Sub(v2, v1) }
  function Absolute(relative: bool, v1: Num, v2: Num): Num { if relative then Add(v1, v2) else v2 }

  function Axis(s: Position, args: map<char, Num>, key: char, current: Num): Num {
    if key in args then Absolute(s.relative, current, args[key]) else current
  }

  /** A move's end point; the new object carries no `relative` property, so the mode is lost. */
  function Destination(s: Position, args: map<char, Num>): Position {
    Position(Axis(s, args, 'x', s.x), Axis(s, args, 'y', s.y), Axis(s, args, 'z', s.z),
             Axis(s, args, 'e', s.e), Axis(s, args, 'f', s.f), false)
  }

  function Move(h: Host, v: Viewer, args: map<char, Num>): Viewer {
    var next := Destination(v.state, args);
    var v1 := if Positive(Delta(v.state.relative, v.state.e, next.e))
                 && (v.layers == [] || Differs(next.z, v.layers[|v.layers| - 1].z))
              then NewLayer(v, next.z) else v;
    var v2 := if 'e' in args then AddSegment(h, v1, v1.state, next) else v1;
    v2.(state := next)
  }

  predicate AllReal(s: Position, t: Position, i: Num, j: Num) {
    s.x.R? && s.y.R? && s.z.R? && t.x.R? && t.y.R? && t.z.R? && i.R? && j.R?
  }

  function OrZero(a: Num): real { if a.R? then a.r else 0.0 }

  /** `interpolateArc` on possibly undefined numbers: without a segment count only the ends remain. */
  function Interpolate(h: Host, s: Position, t: Position, i: Num, j: Num, clockwise: bool): (points: seq<Position>)
    ensures |points| >= 2 && points[|points| - 1] == t
  {
    if !AllReal(s, t, i, j) then [s, t]
    else
      var from := Point(s.x.r, s.y.r, s.z.r, OrZero(s.e));
      var arc := Arc(t.x.r, t.y.r, t.z.r, OrZero(t.e), i.r, j.r, clockwise);
      DefaultLength(h.trig, h.trig.hypot(arc.i, arc.j));
      var points := ArcPoints(h.trig, DEFAULTS, from, arc);
      var eKnown := s.e.R? && t.e.R?;
      [s] + seq(|points| - 2, k requires 0 <= k < |points| - 2 =>
              var p := points[k + 1];
              Position(R(p.x), R(p.y), R(p.z), if eKnown then R(p.e) else NaN, t.f, false)) + [t]
  }

  function ArcPath(h: Host, s: Position, args: map<char, Num>, clockwise: bool): (points: seq<Position>)
    ensures |points| >= 2
  {
    Interpolate(h, s, Destination(s, args), if 'i' in args then args['i'] else R(0.0),
                if 'j' in args then args['j'] else R(0.0), clockwise)
  }

  function FollowPath(h: Host, v: Viewer, points: seq<Position>): Viewer
    requires |points| >= 2
  {
    AddSegments(h, v, points, |points| - 1).(state := points[|points| - 1])
  }

  function ArcMove(h: Host, v: Viewer, args: map<char, Num>, clockwise: bool): Viewer {
    if 'k' in args || 'r' in args then v else FollowPath(h, v, ArcPath(h, v.state, args, clockwise))
  }

  function SetPosition(s: Position, args: map<char, Num>): Position {
    s.(x := if 'x' in args then args['x'] else s.x, y := if 'y' in args then args['y'] else s.y,
       z := if 'z' in args then args['z'] else s.z, e := if 'e' in args then args['e'] else s.e)
  }

  function UpperCommand(tokens: seq<string>): string
    requires |tokens| > 0
  {
    UpperAll(tokens[0])
  }

  function Execute(h: Host, v: Viewer, tokens: seq<string>): Viewer
    requires |tokens| > 0
  {
    var cmd, args := UpperCommand(tokens), Args(h, tokens[1..]);
    if cmd == "G0" || cmd == "G1" then Move(h, v, args)
    else if cmd == "G2" || cmd == "G3" then ArcMove(h, v, args, cmd == "G2")
    else if cmd == "G90" then v.(state := v.state.(relative := false))
    else if cmd == "G91" then v.(state := v.state.(relative := true))
    else if cmd == "G92" then v.(state := SetPosition(v.state, args))
    else v
  }

  function Advance(v: Viewer, line: string): Viewer {
    v.(filePos := v.filePos + |line| + 1, color := CommentColor(line, v.color))
  }

  function Line(h: Host, v: Viewer, line: string): Viewer {
    Execute(h, Advance(v, line), Tokens(line))
  }

  function Lines(h: Host, v: Viewer, lines: seq<string>): Viewer {
    if lines == [] then v else Line(h, Lines(h, v, lines[..|lines| - 1]), lines[|lines| - 1])
  }

  /** The pieces of a chunk after the carried-over text is glued to the first one. */
  function Pieces(piece: string, chunk: string): (p: seq<string>)
    ensures |p| >= 1
  {
    var p := Split(chunk, '\n');
    p[0 := piece + p[0]]
  }

  function Parse(h: Host, s: Session, chunk: string): Session {
    var p := Pieces(s.previousPiece, chunk);
    Session(Lines(h, s.viewer, p[..|p| - 1]), p[|p| - 1])
  }

  function ParseAll(h: Host, s: Session, chunks: seq<string>): Session
    decreases |chunks|
  {
    if chunks == [] then s else ParseAll(h, Parse(h, s, chunks[0]), chunks[1..])
  }

  // ---------------------------------------------------------------- chunk independence

  lemma {:induction false} LinesAppend(h: Host, v: Viewer, a: seq<string>, b: seq<string>)
    ensures Lines(h, v, a + b) == Lines(h, Lines(h, v, a), b)
    decreases |b|
  {
    hide Line;
    if b == [] {
      assert a + b == a;
    } else {
      var n := |a + b|;
      assert (a + b)[..n - 1] == a + b[..|b| - 1] && (a + b)[n - 1] == b[|b| - 1];
      LinesAppend(h, v, a, b[..|b| - 1]);
    }
  }

  /** `a` split into p and `b` into q; the piece left over goes before the first, the cut is glued. */
  lemma GluedAfterPiece(piece: string, p: seq<string>, q: seq<string>)
    requires |p| >= 1 && |q| >= 1
    ensures var all := p[..|p| - 1] + [p[|p| - 1] + q[0]] + q[1..];
      var left := p[0 := piece + p[0]];
      all[0 := piece + all[0]] == left[..|p| - 1] + q[0 := left[|p| - 1] + q[0]]
  {
    if |p| == 1 {
      assert piece + (p[0] + q[0]) == (piece + p[0]) + q[0];
    }
  }

  lemma GluedPieces(piece: string, a: string, b: string)
    ensures var p := Pieces(piece, a);
      Pieces(piece, a + b) == p[..|p| - 1] + Pieces(p[|p| - 1], b)
  {
    var p, q := Split(a, '\n'), Split(b, '\n');
    SplitAppend(a, b, '\n');
    GlueShape(p, q);
    GluedAfterPiece(piece, p, q);
    hide Split, Glue;
  }

  lemma ParseTwice(h: Host, s: Session, a: string, b: string)
    ensures Parse(h, Parse(h, s, a), b) == Parse(h, s, a + b)
  {
    hide Line;
    var p := Pieces(s.previousPiece, a);
    var q := Pieces(p[|p| - 1], b);
    var whole := Pieces(s.previousPiece, a + b);
    GluedPieces(s.previousPiece, a, b);
    assert whole[..|whole| - 1] == p[..|p| - 1] + q[..|q| - 1];
    LinesAppend(h, s.viewer, p[..|p| - 1], q[..|q| - 1]);
  }

  /** Feeding a text in chunks, cut anywhere, is feeding it at once. */
  lemma {:induction false} ChunkIndependence(h: Host, s: Session, chunks: seq<string>)
    ensures ParseAll(h, s, chunks) == Parse(h, s, Concat(chunks))
    decreases |chunks|
  {
    if chunks == [] {
      assert s.previousPiece + "" == s.previousPiece;
      assert Pieces(s.previousPiece, "") == [s.previousPiece];
    } else {
      ChunkIndependence(h, Parse(h, s, chunks[0]), chunks[1..]);
      ParseTwice(h, s, chunks[0], Concat(chunks[1..]));
    }
  }
}
