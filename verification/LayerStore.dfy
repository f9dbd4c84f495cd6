/**
 What every run of the parser keeps about its layers (gcode_viewer/js/prettygcode.js), and what
 the two synchronisation routines show on the drawn objects.
 */
module LayerStore {
  import opened GcodeReading
  import Text

  // ---------------------------------------------------------------- invariant of the layers

  predicate Below(fp: seq<nat>, bound: int) { forall i :: 0 <= i < |fp| ==> fp[i] < bound }
  predicate Ascending(fp: seq<nat>) { forall i, j :: 0 <= i < j < |fp| ==> fp[i] <= fp[j] }
  predicate Before(a: seq<nat>, b: seq<nat>) { forall i, j :: 0 <= i < |a| && 0 <= j < |b| ==> a[i] < b[j] }

  /** Two points of three numbers per segment and copy, one colour per point, one position per segment. */
  predicate ShapeOk(h: Host, l: Layer) {
    |l.vertex| == |l.colors| == 6 * h.Copies() * |l.filePositions|
  }

  function DrawnLayers(layers: seq<Layer>, n: nat): seq<Drawn>
    requires n <= |layers|
  {
    if n == 0 then [] else DrawnLayers(layers, n - 1) + DrawnFrom(layers[n - 1], n)
  }

  /** Segments of one line carry its end position, so only the last layer may already hold it. */
  ghost predicate Ordered(layers: seq<Layer>, filePos: nat) {
    && (forall k :: 0 <= k < |layers| ==> Ascending(layers[k].filePositions))
    && (forall k :: 0 <= k < |layers| ==> Below(layers[k].filePositions, filePos + 1))
    && (forall k :: 0 <= k < |layers| - 1 ==> Below(layers[k].filePositions, filePos))
    && (forall j, k :: 0 <= j < k < |layers| ==> Before(layers[j].filePositions, layers[k].filePositions))
  }

  ghost predicate ValidParts(h: Host, layers: seq<Layer>, filePos: nat, objects: seq<Drawn>) {
    && (forall k :: 0 <= k < |layers| ==> ShapeOk(h, layers[k]))
    && Ordered(layers, filePos)
    && objects == DrawnLayers(layers, if layers == [] then 0 else |layers| - 1)
  }

  ghost predicate Valid(h: Host, v: Viewer) { ValidParts(h, v.layers, v.filePos, v.objects) }

  ghost predicate FreshParts(layers: seq<Layer>, filePos: nat) {
    forall k :: 0 <= k < |layers| ==> Below(layers[k].filePositions, filePos)
  }

  ghost predicate Fresh(v: Viewer) { FreshParts(v.layers, v.filePos) }

  lemma {:induction false} DrawnPrefix(a: seq<Layer>, b: seq<Layer>, n: nat)
    requires n <= |a| && n <= |b| && a[..n] == b[..n]
    ensures DrawnLayers(a, n) == DrawnLayers(b, n)
  {
    if n > 0 {
      assert a[..n - 1] == a[..n][..n - 1] && a[n - 1] == a[..n][n - 1];
      DrawnPrefix(a, b, n - 1);
    }
  }

  lemma NewLayerKeepsOrder(layers: seq<Layer>, filePos: nat, z: Num)
    requires Ordered(layers, filePos) && FreshParts(layers, filePos)
    ensures Ordered(layers + [Layer(z, [], [], [])], filePos) && FreshParts(layers + [Layer(z, [], [], [])], filePos)
  {
    var after := layers + [Layer(z, [], [], [])];
    assert forall k :: 0 <= k < |layers| ==> after[k] == layers[k];
  }

  lemma NewLayerKeeps(h: Host, v: Viewer, z: Num)
    requires Valid(h, v) && Fresh(v)
    ensures Valid(h, NewLayer(v, z)) && Fresh(NewLayer(v, z))
  {
    hide Ordered;
    var n, after := |v.layers|, v.layers + [Layer(z, [], [], [])];
    assert NewLayer(v, z).layers == after && NewLayer(v, z).filePos == v.filePos;
    NewLayerKeepsOrder(v.layers, v.filePos, z);
    DrawnPrefix(v.layers, after, n);
    assert Flush(v).objects == DrawnLayers(v.layers, n);
  }

  lemma AppendKeepsOrder(layers: seq<Layer>, filePos: nat, last: Layer)
    requires layers != [] && Ordered(layers, filePos)
    requires last.filePositions == layers[|layers| - 1].filePositions + [filePos]
    ensures Ordered(layers[|layers| - 1 := last], filePos)
  {
    var n, after := |layers| - 1, layers[|layers| - 1 := last];
    assert forall k :: 0 <= k < n ==> after[k] == layers[k];
    assert Ascending(last.filePositions);
  }

  lemma AppendKeeps(h: Host, v: Viewer, p1: Position, p2: Position)
    requires Valid(h, v) && v.layers != []
    ensures Valid(h, Append(h, v, p1, p2))
  {
    hide Ordered;
    if !BadPoint(p1) && !BadPoint(p2) {
      var n := |v.layers| - 1;
      var last := Extend(h, v, v.layers[n], p1, p2);
      assert ShapeOk(h, last);
      hide Extend;
      AppendKeepsOrder(v.layers, v.filePos, last);
      DrawnPrefix(v.layers, v.layers[n := last], n);
    }
  }

  lemma AddSegmentKeeps(h: Host, v: Viewer, p1: Position, p2: Position)
    requires Valid(h, v)
    ensures Valid(h, AddSegment(h, v, p1, p2))
  {
    if v.layers == [] {
      NewLayerKeeps(h, v, p1.z);
      AppendKeeps(h, NewLayer(v, p1.z), p1, p2);
    } else {
      AppendKeeps(h, v, p1, p2);
    }
  }

  lemma {:induction false} AddSegmentsKeeps(h: Host, v: Viewer, points: seq<Position>, k: nat)
    requires Valid(h, v) && k < |points|
    ensures Valid(h, AddSegments(h, v, points, k))
  {
    if k > 0 {
      AddSegmentsKeeps(h, v, points, k - 1);
      AddSegmentKeeps(h, AddSegments(h, v, points, k - 1), points[k - 1], points[k]);
    }
  }

  lemma MoveKeeps(h: Host, v: Viewer, args: map<char, Num>)
    requires Valid(h, v) && Fresh(v)
    ensures Valid(h, Move(h, v, args))
  {
    var next := Destination(v.state, args);
    var opens := Positive(Delta(v.state.relative, v.state.e, next.e))
                 && (v.layers == [] || Differs(next.z, v.layers[|v.layers| - 1].z));
    var v1 := if opens then NewLayer(v, next.z) else v;
    if opens {
      NewLayerKeeps(h, v, next.z);
    }
    if 'e' in args {
      AddSegmentKeeps(h, v1, v1.state, next);
    }
  }

  lemma FollowPathKeeps(h: Host, v: Viewer, points: seq<Position>)
    requires Valid(h, v) && |points| >= 2
    ensures Valid(h, FollowPath(h, v, points))
  {
    AddSegmentsKeeps(h, v, points, |points| - 1);
  }

  lemma ArcMoveKeeps(h: Host, v: Viewer, args: map<char, Num>, clockwise: bool)
    requires Valid(h, v)
    ensures Valid(h, ArcMove(h, v, args, clockwise))
  {
    FollowPathKeeps(h, v, ArcPath(h, v.state, args, clockwise));
  }

  lemma ExecuteKeeps(h: Host, v: Viewer, tokens: seq<string>)
    requires Valid(h, v) && Fresh(v) && |tokens| > 0
    ensures Valid(h, Execute(h, v, tokens))
  {
    var cmd, args := UpperCommand(tokens), Args(h, tokens[1..]);
    if cmd == "G0" || cmd == "G1" {
      MoveKeeps(h, v, args);
    } else if cmd == "G2" || cmd == "G3" {
      ArcMoveKeeps(h, v, args, cmd == "G2");
    }
  }

  lemma AdvanceKeeps(h: Host, layers: seq<Layer>, filePos: nat, objects: seq<Drawn>, later: nat)
    requires ValidParts(h, layers, filePos, objects) && later > filePos
    ensures ValidParts(h, layers, later, objects) && FreshParts(layers, later)
  {
  }

  lemma LineKeeps(h: Host, v: Viewer, line: string)
    requires Valid(h, v)
    ensures Valid(h, Line(h, v, line))
  {
    AdvanceKeeps(h, v.layers, v.filePos, v.objects, v.filePos + |line| + 1);
    ExecuteKeeps(h, Advance(v, line), Tokens(line));
  }

  lemma {:induction false} LinesKeep(h: Host, v: Viewer, lines: seq<string>)
    requires Valid(h, v)
    ensures Valid(h, Lines(h, v, lines))
  {
    if lines != [] {
      LinesKeep(h, v, lines[..|lines| - 1]);
      LineKeeps(h, Lines(h, v, lines[..|lines| - 1]), lines[|lines| - 1]);
    }
  }

  /** Every file, in every chunking, leaves well-shaped layers with strictly separated positions. */
  lemma ParsingKeepsLayers(h: Host, chunks: seq<string>)
    ensures Valid(h, ParseAll(h, Session(EMPTY, ""), chunks).viewer)
  {
    var text := Text.Concat(chunks);
    var p := Pieces("", text);
    ChunkIndependence(h, Session(EMPTY, ""), chunks);
    LinesKeep(h, EMPTY, p[..|p| - 1]);
  }
}
