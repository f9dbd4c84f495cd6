/**
 The layer map claims to mirror the viewer's layer detection. For every text whatsoever: the two readers list the same
 layers, at the same lines and heights, exactly when they read each line alike.
 */
module LayerAgreement {
  import opened Options
  import opened Text
  import opened GcodeReading
  import opened LayerMap
  import opened LayerMapShape

  // ---------------------------------------------------------------- what one line begins

  function CurrentLayer(v: Viewer): Option<Num> {
    if v.layers == [] then Option.None else Option.Some(v.layers[|v.layers| - 1].z)
  }

  /** The viewer takes a move to extrude; in relative mode it looks at the end position instead of the difference. */
  predicate Feeds(s: Position, next: Position) { Positive(Delta(s.relative, s.e, next.e)) }

  /** The height of the layer that a G0 or G1 begins in the viewer: where it ends, or where it starts. */
  function MoveOpens(s: Position, current: Option<Num>, args: map<char, Num>): Option<Num> {
    var next := Destination(s, args);
    if Feeds(s, next) && (current.None? || Differs(next.z, current.value)) then Option.Some(next.z)
    else if 'e' in args && current.None? then Option.Some(s.z)
    else Option.None
  }

  /** An arc begins a layer only as the first segment of the file. */
  function ArcOpens(s: Position, current: Option<Num>, args: map<char, Num>): Option<Num> {
    if 'k' in args || 'r' in args || current.Some? then Option.None else Option.Some(s.z)
  }

  function ViewerOpens(h: Host, s: Position, current: Option<Num>, line: string): Option<Num> {
    var cmd, args := UpperCommand(Tokens(line)), Args(h, Tokens(line)[1..]);
    if cmd == "G0" || cmd == "G1" then MoveOpens(s, current, args)
    else if cmd == "G2" || cmd == "G3" then ArcOpens(s, current, args)
    else Option.None
  }

  predicate BeginsLayer(h: Host, m: Map, line: string) { IsMove(line) && Opens(m, TargetOf(h, m, line)) }

  function MapOpens(h: Host, m: Map, line: string): Option<Num> {
    if BeginsLayer(h, m, line) then Option.Some(R(TargetOf(h, m, line).z)) else Option.None
  }

  /** With the same current layer, both begin a layer of the same height on this line, or neither begins one. */
  predicate ReadAlike(h: Host, s: Position, m: Map, line: string) {
    ViewerOpens(h, s, CurrentZ(m), line) == MapOpens(h, m, line)
  }

  /** At most one layer is added, and only as said; the height of a layer never changes. */
  ghost predicate Grows(v: Viewer, w: Viewer, start: Option<Num>) {
    && |w.layers| == |v.layers| + (if start.Some? then 1 else 0)
    && CurrentLayer(w) == if start.Some? then start else CurrentLayer(v)
  }

  /** The same without moving on in the file. */
  ghost predicate GrowsHere(v: Viewer, w: Viewer, start: Option<Num>) { Grows(v, w, start) && w.filePos == v.filePos }

  lemma SegmentGrows(h: Host, v: Viewer, p1: Position, p2: Position)
    ensures GrowsHere(v, AddSegment(h, v, p1, p2), if v.layers == [] then Option.Some(p1.z) else Option.None)
  {
  }

  lemma {:induction false} SegmentsGrow(h: Host, v: Viewer, points: seq<Position>, k: nat)
    requires 0 < k < |points|
    ensures GrowsHere(v, AddSegments(h, v, points, k),
                      if v.layers == [] then Option.Some(points[0].z) else Option.None)
  {
    if k == 1 {
      assert AddSegments(h, v, points, 0) == v;
    } else {
      SegmentsGrow(h, v, points, k - 1);
    }
    SegmentGrows(h, AddSegments(h, v, points, k - 1), points[k - 1], points[k]);
    hide AddSegment;
  }

  lemma ArcGrows(h: Host, v: Viewer, args: map<char, Num>, clockwise: bool)
    ensures GrowsHere(v, ArcMove(h, v, args, clockwise), ArcOpens(v.state, CurrentLayer(v), args))
  {
    hide AddSegments;
    var points := ArcPath(h, v.state, args, clockwise);
    assert points[0] == v.state;
    hide ArcPath;
    SegmentsGrow(h, v, points, |points| - 1);
  }

  lemma MoveGrows(h: Host, v: Viewer, args: map<char, Num>)
    ensures GrowsHere(v, Move(h, v, args), MoveOpens(v.state, CurrentLayer(v), args))
  {
    var next := Destination(v.state, args);
    var opens := Feeds(v.state, next) && (v.layers == [] || Differs(next.z, v.layers[|v.layers| - 1].z));
    var v1 := if opens then NewLayer(v, next.z) else v;
    SegmentGrows(h, v1, v1.state, next);
    hide AddSegment;
  }

  lemma ExecuteGrows(h: Host, v: Viewer, tokens: seq<string>)
    requires |tokens| > 0
    ensures var cmd, args, w := UpperCommand(tokens), Args(h, tokens[1..]), Execute(h, v, tokens);
      GrowsHere(v, w, if cmd == "G0" || cmd == "G1" then MoveOpens(v.state, CurrentLayer(v), args)
                      else if cmd == "G2" || cmd == "G3" then ArcOpens(v.state, CurrentLayer(v), args)
                      else Option.None)
  {
    assert forall w: Viewer :: w.layers == v.layers ==> Grows(v, w, Option.None);
    hide Move, ArcMove, MoveOpens, ArcOpens, UpperCommand, Grows, Args, SetPosition;
    var cmd, args := UpperCommand(tokens), Args(h, tokens[1..]);
    if cmd == "G0" || cmd == "G1" {
      MoveGrows(h, v, args);
    } else if cmd == "G2" || cmd == "G3" {
      ArcGrows(h, v, args, cmd == "G2");
    } else {
      assert Execute(h, v, tokens).layers == v.layers;
    }
  }

  lemma LineGrows(h: Host, v: Viewer, line: string)
    ensures Grows(v, Line(h, v, line), ViewerOpens(h, v.state, CurrentLayer(v), line))
    ensures Line(h, v, line).filePos == Advance(v, line).filePos
  {
    var u := Advance(v, line);
    assert CurrentLayer(u) == CurrentLayer(v) && u.state == v.state && u.layers == v.layers;
    hide Execute, Tokens, Args, MoveOpens, ArcOpens, UpperCommand, Advance;
    ExecuteGrows(h, u, Tokens(line));
  }

  lemma MapLineOpens(h: Host, m: Map, line: string)
    ensures var n := MapLine(h, m, line);
      && n.layerOffsets == (if MapOpens(h, m, line).Some? then m.layerOffsets + [m.byteOffset] else m.layerOffsets)
      && CurrentZ(n) == if MapOpens(h, m, line).Some? then MapOpens(h, m, line) else CurrentZ(m)
  {
  }

  // ---------------------------------------------------------------- whole programs

  /** Where the viewer pushes a layer, and at which height. */
  function ViewerStarts(h: Host, lines: seq<string>): seq<Start> {
    if lines == [] then []
    else
      var n := |lines| - 1;
      var before, after := Lines(h, EMPTY, lines[..n]).layers, Lines(h, EMPTY, lines).layers;
      if |after| > |before| then ViewerStarts(h, lines[..n]) + [Start(n, after[|after| - 1].z)]
      else ViewerStarts(h, lines[..n])
  }

  /** A start list with the layer that line n begins, if any. */
  function Then(starts: seq<Start>, n: nat, start: Option<Num>): seq<Start> {
    if start.Some? then starts + [Start(n, start.value)] else starts
  }

  ghost predicate Earlier(starts: seq<Start>, n: nat) { forall k :: 0 <= k < |starts| ==> starts[k].line < n }

  /** Lists that have diverged stay different. */
  lemma ThenIsInjective(a: seq<Start>, b: seq<Start>, n: nat, x: Option<Num>, y: Option<Num>)
    requires Earlier(a, n) && Earlier(b, n)
    ensures Then(a, n, x) == Then(b, n, y) <==> a == b && x == y
  {
    var c, d := Then(a, n, x), Then(b, n, y);
    if c == d {
      assert c != [] ==> c[|c| - 1] == d[|d| - 1];
      assert a == if x.Some? then c[..|c| - 1] else c;
      assert b == if y.Some? then d[..|d| - 1] else d;
    }
  }

  /** What the viewer's list says about its state. */
  ghost predicate Mirrors(v: Viewer, starts: seq<Start>, n: nat) {
    Earlier(starts, n) && |starts| == |v.layers| && LastZ(starts) == CurrentLayer(v)
  }

  lemma {:induction false} ViewerMirrors(h: Host, lines: seq<string>)
    ensures Mirrors(Lines(h, EMPTY, lines), ViewerStarts(h, lines), |lines|)
  {
    if lines != [] {
      var n := |lines| - 1;
      ViewerMirrors(h, lines[..n]);
      ViewerStep(h, lines, n);
      LineGrows(h, Lines(h, EMPTY, lines[..n]), lines[n]);
      hide Line, ViewerOpens;
    }
  }

  lemma ViewerStep(h: Host, lines: seq<string>, n: nat)
    requires |lines| == n + 1
    ensures var v := Lines(h, EMPTY, lines[..n]);
      ViewerStarts(h, lines) == Then(ViewerStarts(h, lines[..n]), n, ViewerOpens(h, v.state, CurrentLayer(v), lines[n]))
  {
    hide Line, ViewerOpens;
    var v, w := Lines(h, EMPTY, lines[..n]), Lines(h, EMPTY, lines);
    assert w == Line(h, v, lines[n]);
    LineGrows(h, v, lines[n]);
    hide Lines;
  }

  lemma MapStep(h: Host, lines: seq<string>, n: nat)
    requires |lines| == n + 1
    ensures MapStarts(h, lines) == Then(MapStarts(h, lines[..n]), n, MapOpens(h, MapLines(h, lines[..n]), lines[n]))
  {
    MapLineOpens(h, MapLines(h, lines[..n]), lines[n]);
    hide MapLine, MapOpens;
  }

  predicate AlikeAt(h: Host, lines: seq<string>, i: int)
    requires 0 <= i < |lines|
  {
    ReadAlike(h, Lines(h, EMPTY, lines[..i]).state, MapLines(h, lines[..i]), lines[i])
  }

  ghost predicate AllAlike(h: Host, lines: seq<string>) {
    forall i :: 0 <= i < |lines| ==> AlikeAt(h, lines, i)
  }

  /** One line decides whether equal lists stay equal; unequal ones never meet again. */
  lemma StartsStep(h: Host, lines: seq<string>, n: nat)
    requires |lines| == n + 1
    ensures ViewerStarts(h, lines) == MapStarts(h, lines)
       <==> ViewerStarts(h, lines[..n]) == MapStarts(h, lines[..n]) && AlikeAt(h, lines, n)
  {
    var init := lines[..n];
    var v, m := Lines(h, EMPTY, init), MapLines(h, init);
    ViewerMirrors(h, init);
    OffsetsPointToStarts(h, init);
    ViewerStep(h, lines, n);
    MapStep(h, lines, n);
    hide ViewerOpens, MapOpens, Lines, MapLines, ViewerStarts, MapStarts;
    ThenIsInjective(ViewerStarts(h, init), MapStarts(h, init), n,
                    ViewerOpens(h, v.state, CurrentLayer(v), lines[n]), MapOpens(h, m, lines[n]));
  }

  /** For every program: the same layers at the same lines and heights if and only if each line is read alike. */
  lemma {:induction false} StartsAgreeExactlyWhen(h: Host, lines: seq<string>)
    ensures ViewerStarts(h, lines) == MapStarts(h, lines) <==> AllAlike(h, lines)
  {
    hide ReadAlike, Lines, MapLines;
    if lines == [] {
      assert ViewerStarts(h, lines) == [] == MapStarts(h, lines);
    } else {
      var n := |lines| - 1;
      var init := lines[..n];
      forall i | 0 <= i < n
        ensures AlikeAt(h, init, i) == AlikeAt(h, lines, i)
      {
        assert init[..i] == lines[..i];
      }
      hide AlikeAt, ViewerStarts, MapStarts;
      StartsAgreeExactlyWhen(h, init);
      StartsStep(h, lines, n);
      assert AllAlike(h, lines) <==> AllAlike(h, init) && AlikeAt(h, lines, n);
    }
  }

  // ---------------------------------------------------------------- whole texts

  /** The lines of a text that the viewer executes: all but the piece after the last line feed. */
  function Executed(text: string): seq<string> {
    var lines := Split(text, '\n');
    lines[..|lines| - 1]
  }

  lemma ViewerExecutes(h: Host, text: string)
    ensures Parse(h, Session(EMPTY, ""), text).viewer == Lines(h, EMPTY, Executed(text))
  {
    assert "" + Split(text, '\n')[0] == Split(text, '\n')[0];
    assert Pieces("", text) == Split(text, '\n');
  }

  /**
   On every text the two readers list the same layers, at the same lines and heights, if and only if each line that
   the viewer executes is read alike and no layer begins on an unterminated last line, which only the map reads.
   */
  lemma ReadersAgreeExactlyWhen(h: Host, text: string)
    ensures var all, lines := Split(text, '\n'), Executed(text);
      var tail := BeginsLayer(h, MapLines(h, lines), all[|all| - 1]);
      && (ViewerStarts(h, lines) == MapStarts(h, all) <==> AllAlike(h, lines) && !tail)
      && (ViewerStarts(h, lines) == MapStarts(h, lines) <==> AllAlike(h, lines))
  {
    hide BeginsLayer, AllAlike, ViewerStarts, MapStarts, Lines, MapLines, Split, TargetOf;
    var all, lines := Split(text, '\n'), Executed(text);
    var n := |lines|;
    StartsAgreeExactlyWhen(h, lines);
    ViewerMirrors(h, lines);
    OffsetsPointToStarts(h, lines);
    MapStep(h, all, n);
    ThenIsInjective(ViewerStarts(h, lines), MapStarts(h, lines), n,
                    Option.None, MapOpens(h, MapLines(h, lines), all[n]));
  }
}
