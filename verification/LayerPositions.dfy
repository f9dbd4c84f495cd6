/**
 What agreement is good for: layer k of the map begins at the line whose end is the first file position of the viewer's
 layer k, which settles what a synchronisation at a layer's offset shows.
 */
module LayerPositions {
  import opened Options
  import opened Text
  import opened GcodeReading
  import opened LayerStore
  import opened LayerSync
  import opened LayerMap
  import opened LayerMapShape
  import opened PlainLines
  import opened LayerAgreement
  import opened PlainAgreement

  // ---------------------------------------------------------------- first positions

  /** No layer loses its first position. */
  ghost predicate KeepsFirsts(before: seq<Layer>, after: seq<Layer>) {
    && |before| <= |after|
    && forall k :: 0 <= k < |before| && before[k].filePositions != [] ==>
         after[k].filePositions != [] && after[k].filePositions[0] == before[k].filePositions[0]
  }

  lemma SegmentKeepsFirsts(h: Host, v: Viewer, p1: Position, p2: Position)
    ensures KeepsFirsts(v.layers, AddSegment(h, v, p1, p2).layers)
  {
  }

  lemma {:induction false} SegmentsKeepFirsts(h: Host, v: Viewer, points: seq<Position>, k: nat)
    requires k < |points|
    ensures KeepsFirsts(v.layers, AddSegments(h, v, points, k).layers)
  {
    if k > 0 {
      SegmentsKeepFirsts(h, v, points, k - 1);
      SegmentKeepsFirsts(h, AddSegments(h, v, points, k - 1), points[k - 1], points[k]);
      hide AddSegment;
    }
  }

  lemma MoveKeepsFirsts(h: Host, v: Viewer, args: map<char, Num>)
    ensures KeepsFirsts(v.layers, Move(h, v, args).layers)
  {
    var next := Destination(v.state, args);
    SegmentKeepsFirsts(h, v, v.state, next);
    SegmentKeepsFirsts(h, NewLayer(v, next.z), v.state, next);
    hide AddSegment;
  }

  lemma ArcKeepsFirsts(h: Host, v: Viewer, args: map<char, Num>, clockwise: bool)
    ensures KeepsFirsts(v.layers, ArcMove(h, v, args, clockwise).layers)
  {
    hide ArcPath, AddSegments;
    var points := ArcPath(h, v.state, args, clockwise);
    SegmentsKeepFirsts(h, v, points, |points| - 1);
    assert KeepsFirsts(v.layers, v.layers);
    hide KeepsFirsts;
  }

  lemma ExecuteKeepsFirsts(h: Host, v: Viewer, tokens: seq<string>)
    requires |tokens| > 0
    ensures KeepsFirsts(v.layers, Execute(h, v, tokens).layers)
  {
    assert KeepsFirsts(v.layers, v.layers);
    hide Args, ArcMove, Move, UpperCommand, SetPosition, KeepsFirsts;
    var cmd, args := UpperCommand(tokens), Args(h, tokens[1..]);
    if cmd == "G0" || cmd == "G1" {
      MoveKeepsFirsts(h, v, args);
    } else if cmd == "G2" || cmd == "G3" {
      ArcKeepsFirsts(h, v, args, cmd == "G2");
    }
  }

  /** A layer that a move begins, and that the map sees too, holds the segment of that move. */
  lemma OpenedLayerHasSegment(h: Host, v: Viewer, args: map<char, Num>)
    requires RealState(v.state) && AllReals(args) && 'e' in args
    requires MoveOpens(v.state, CurrentLayer(v), args).Some?
    ensures var w := Move(h, v, args);
      w.layers != [] && w.layers[|w.layers| - 1].filePositions == [v.filePos]
  {
    var next := Destination(v.state, args);
    assert !BadPoint(v.state) && !BadPoint(next);
    var opens := Feeds(v.state, next) && (v.layers == [] || Differs(next.z, v.layers[|v.layers| - 1].z));
    FreshSegment(h, if opens then NewLayer(v, next.z) else v, v.state, next);
    hide AddSegment;
  }

  lemma FreshSegment(h: Host, v: Viewer, p1: Position, p2: Position)
    requires !BadPoint(p1) && !BadPoint(p2)
    requires v.layers == [] || v.layers[|v.layers| - 1].filePositions == []
    ensures var w := AddSegment(h, v, p1, p2);
      w.layers != [] && w.layers[|w.layers| - 1].filePositions == [v.filePos]
  {
  }

  lemma OpeningLine(h: Host, v: Viewer, m: Map, line: string)
    requires Canonical(h, line) && RealState(v.state) && CurrentLayer(v) == CurrentZ(m)
    requires ReadAlike(h, v.state, m, line) && MapOpens(h, m, line).Some?
    ensures var w := Line(h, v, line);
      w.layers != [] && w.layers[|w.layers| - 1].filePositions == [w.filePos]
  {
    LineGrows(h, v, line);
    CommandsAgree(h, line);
    MoveLineReads(h, v, m, line);
    MoveTarget(h, m, line);
    OpenedLayerHasSegment(h, Advance(v, line), Args(h, Tokens(line)[1..]));
    hide Line, MapLine, Move, Tokens, Args, TargetOf, CommentColor, Canonical, UpperCommand, MoveOpens, MoveTo;
  }

  // ---------------------------------------------------------------- whole programs

  ghost predicate Agreed(h: Host, lines: seq<string>) { ViewerStarts(h, lines) == MapStarts(h, lines) }

  lemma {:induction false} ViewerPosition(h: Host, lines: seq<string>)
    ensures Lines(h, EMPTY, lines).filePos == LineStart(lines, |lines|)
  {
    hide Line, ViewerOpens;
    if lines != [] {
      var n := |lines| - 1;
      ViewerPosition(h, lines[..n]);
      LineGrows(h, Lines(h, EMPTY, lines[..n]), lines[n]);
      LineStartPrefix(lines[..n], lines, n);
    }
  }

  /** The end of the line on which layer k begins. */
  function EndOf(lines: seq<string>, start: Start): nat
    requires start.line < |lines|
  {
    LineStart(lines, start.line + 1)
  }

  /** The first segment of layer k was read from the line where the layer begins. */
  ghost predicate FirstPositions(lines: seq<string>, layers: seq<Layer>, starts: seq<Start>) {
    && |layers| == |starts|
    && (forall k :: 0 <= k < |layers| ==> starts[k].line < |lines| && layers[k].filePositions != [])
    && (forall k :: 0 <= k < |layers| ==> layers[k].filePositions[0] == EndOf(lines, starts[k]))
  }

  lemma FirstPositionsExtend(lines: seq<string>, n: nat, layers: seq<Layer>, starts: seq<Start>)
    requires n <= |lines| && FirstPositions(lines[..n], layers, starts)
    ensures FirstPositions(lines, layers, starts)
  {
    forall k | 0 <= k < |layers|
      ensures EndOf(lines[..n], starts[k]) == EndOf(lines, starts[k])
    {
      LineStartPrefix(lines[..n], lines, starts[k].line + 1);
    }
  }

  lemma PositionsStep(lines: seq<string>, n: nat, v: Viewer, w: Viewer, before: seq<Start>, start: Option<Num>)
    requires |lines| == n + 1 && FirstPositions(lines[..n], v.layers, before)
    requires KeepsFirsts(v.layers, w.layers) && w.filePos == LineStart(lines, n + 1)
    requires |w.layers| == |v.layers| + if start.Some? then 1 else 0
    requires start.Some? ==> w.layers[|v.layers|].filePositions == [w.filePos]
    ensures FirstPositions(lines, w.layers, Then(before, n, start))
  {
    FirstPositionsExtend(lines, n, v.layers, before);
    var after := Then(before, n, start);
    hide LineStart;
    assert start.Some? ==> after[|before|] == Start(n, start.value) && EndOf(lines, after[|before|]) == w.filePos;
    hide EndOf;
    forall k | 0 <= k < |w.layers|
      ensures after[k].line < |lines| && w.layers[k].filePositions != []
      ensures w.layers[k].filePositions[0] == EndOf(lines, after[k])
    {
      if k < |before| {
        assert after[k] == before[k] && v.layers[k].filePositions != [];
      }
    }
  }

  /**
   On every program of canonical lines, arcs and relative modes included, whose layers both readers list alike: the
   first segment of the viewer's k-th layer ends the line at which the map's k-th offset points.
   */
  lemma {:induction false} LayersBeginAtTheSameLines(h: Host, lines: seq<string>)
    ensures AllCanonical(h, lines) && Agreed(h, lines) ==>
              FirstPositions(lines, Lines(h, EMPTY, lines).layers, MapStarts(h, lines))
  {
    if lines != [] && AllCanonical(h, lines) && Agreed(h, lines) {
      var n := |lines| - 1;
      var init := lines[..n];
      StartsStep(h, lines, n);
      LayersBeginAtTheSameLines(h, init);
      var v, m, w := Lines(h, EMPTY, init), MapLines(h, init), Lines(h, EMPTY, lines);
      var start := MapOpens(h, m, lines[n]);
      assert w == Line(h, v, lines[n]);
      ViewerMirrors(h, init);
      OffsetsPointToStarts(h, init);
      ViewerIsReal(h, init);
      ViewerPosition(h, lines);
      MapStep(h, lines, n);
      ExecuteKeepsFirsts(h, Advance(v, lines[n]), Tokens(lines[n]));
      assert KeepsFirsts(v.layers, w.layers);
      LineGrows(h, v, lines[n]);
      hide Line, Lines, MapLines, Canonical, MapOpens, ViewerOpens, ViewerStarts, MapStarts;
      if start.Some? {
        OpeningLine(h, v, m, lines[n]);
      }
      PositionsStep(lines, n, v, w, MapStarts(h, init), start);
    }
  }

  // ---------------------------------------------------------------- synchronising at an offset

  /** Without empty layers every layer is drawn, under its own number. */
  lemma {:induction false} AllLayersDrawn(layers: seq<Layer>, h: Host, n: nat)
    requires n <= |layers|
    requires forall k :: 0 <= k < |layers| ==> ShapeOk(h, layers[k]) && layers[k].filePositions != []
    ensures |DrawnLayers(layers, n)| == n
    ensures forall k :: 0 <= k < n ==>
      DrawnLayers(layers, n)[k].layerNumber == k + 1
      && DrawnLayers(layers, n)[k].filePositions == layers[k].filePositions
  {
    if n > 0 {
      AllLayersDrawn(layers, h, n - 1);
      DrawnShape(h, layers[n - 1], n);
    }
  }

  /** A number of layers is the synced layer if and only if exactly so many first positions are at or before p. */
  lemma SyncedCount(h: Host, ds: seq<Drawn>, p: int, k: nat)
    requires Stack(h, ds) && k <= |ds| && forall i :: 0 <= i < |ds| ==> ds[i].layerNumber == i + 1
    ensures forall i :: 0 <= i < |ds| ==> ds[i].filePositions != []
    ensures SyncedLayer(ds, p) == k <==>
      (k > 0 ==> ds[k - 1].filePositions[0] <= p) && (k < |ds| ==> p < ds[k].filePositions[0])
  {
    BegunIsPrefix(h, ds, p);
    SyncedLayerIsLastBegun(ds, p);
    hide Stack, Begun, SyncedLayer;
  }

  /** Exactly the first k layers have ended their first line at p. */
  predicate EndedAt(lines: seq<string>, starts: seq<Start>, p: int, k: nat) {
    && k <= |starts|
    && (k > 0 ==> starts[k - 1].line < |lines| && EndOf(lines, starts[k - 1]) <= p)
    && (k < |starts| ==> starts[k].line < |lines| && p < EndOf(lines, starts[k]))
  }

  lemma DrawnStarts(h: Host, lines: seq<string>, v: Viewer, starts: seq<Start>)
    requires Valid(h, v) && FirstPositions(lines, v.layers, starts)
    ensures var ds := Flush(v).objects;
      && |ds| == |starts|
      && (forall i :: 0 <= i < |ds| ==> ds[i].layerNumber == i + 1 && ds[i].filePositions != [])
      && (forall i :: 0 <= i < |ds| ==> starts[i].line < |lines|)
      && (forall i :: 0 <= i < |ds| ==> ds[i].filePositions[0] == EndOf(lines, starts[i]))
  {
    hide EndOf, Ordered, DrawnFrom;
    AllLayersDrawn(v.layers, h, |v.layers|);
    assert Flush(v).objects == DrawnLayers(v.layers, |v.layers|);
    hide DrawnLayers, ValidParts;
  }

  lemma SyncedWithStarts(h: Host, lines: seq<string>, v: Viewer, starts: seq<Start>, p: int, k: nat)
    requires Valid(h, v) && FirstPositions(lines, v.layers, starts)
    ensures SyncedLayer(Flush(v).objects, p) == k <==> EndedAt(lines, starts, p, k)
  {
    StoreGivesStack(h, v);
    DrawnStarts(h, lines, v, starts);
    hide Stack, EndOf, Flush, SyncedLayer, ValidParts, FirstPositions;
    var ds := Flush(v).objects;
    SyncedAtMost(ds, p);
    if k <= |ds| {
      SyncedCount(h, ds, p, k);
    }
  }

  lemma {:induction false} SyncedAtMost(ds: seq<Drawn>, p: int)
    requires forall i :: 0 <= i < |ds| ==> ds[i].layerNumber == i + 1
    ensures SyncedLayer(ds, p) <= |ds|
  {
    if ds != [] {
      SyncedAtMost(ds[..|ds| - 1], p);
    }
  }

  /** A position synchronisation returns the number of layers whose first line ends at or before the position. */
  lemma SyncedLayerExactlyWhen(h: Host, lines: seq<string>, p: int, k: nat)
    ensures AllCanonical(h, lines) && Agreed(h, lines) ==>
              (SyncedLayer(Flush(Lines(h, EMPTY, lines)).objects, p) == k
               <==> EndedAt(lines, MapStarts(h, lines), p, k))
  {
    LayersBeginAtTheSameLines(h, lines);
    LinesKeep(h, EMPTY, lines);
    hide Lines, MapStarts, Canonical, Agreed, AllCanonical, Flush, SyncedLayer, ValidParts, FirstPositions, EndedAt;
    if AllCanonical(h, lines) && Agreed(h, lines) {
      SyncedWithStarts(h, lines, Lines(h, EMPTY, lines), MapStarts(h, lines), p, k);
    }
  }

  /** At the offset of layer k, and up to the end of its line, the first k layers have begun; then one more has. */
  lemma OffsetsEnd(lines: seq<string>, offsets: seq<nat>, starts: seq<Start>, k: nat)
    requires OffsetsAre(lines, offsets, starts) && k < |starts|
    ensures var at, length := offsets[k], |lines[starts[k].line]|;
      && EndedAt(lines, starts, at, k) && EndedAt(lines, starts, at + length, k)
      && EndedAt(lines, starts, at + length + 1, k + 1)
  {
    if k > 0 && starts[k - 1].line + 1 < starts[k].line {
      LineStartGrows(lines, starts[k - 1].line + 1, starts[k].line);
    }
    if k + 1 < |starts| {
      LineStartGrows(lines, starts[k].line + 1, starts[k + 1].line + 1);
    }
  }

  /** What a synchronisation returns around the offset of layer k. */
  predicate SyncsLate(ds: seq<Drawn>, lines: seq<string>, offsets: seq<nat>, starts: seq<Start>, k: nat)
    requires k < |starts| == |offsets| && starts[k].line < |lines|
  {
    var at, length := offsets[k], |lines[starts[k].line]|;
    && SyncedLayer(ds, at) == k == SyncedLayer(ds, at + length)
    && SyncedLayer(ds, at + length + 1) == k + 1
  }

  /**
   Fed with the offset of the map's layer k, the viewer's synchronisation returns k, which in its count from 1 is the
   layer before; the layer itself is returned once its first line has been passed.
   */
  lemma SyncAtLayerOffset(h: Host, lines: seq<string>, k: nat)
    ensures var offsets, starts := MapLines(h, lines).layerOffsets, MapStarts(h, lines);
      && OffsetsAre(lines, offsets, starts)
      && (AllCanonical(h, lines) && Agreed(h, lines) && k < |offsets| ==>
            SyncsLate(Flush(Lines(h, EMPTY, lines)).objects, lines, offsets, starts, k))
  {
    OffsetsPointToStarts(h, lines);
    hide Lines, MapStarts, MapLines, Canonical, Agreed, AllCanonical, SyncedLayer, Flush, EndedAt;
    var starts, offsets := MapStarts(h, lines), MapLines(h, lines).layerOffsets;
    if AllCanonical(h, lines) && Agreed(h, lines) && k < |offsets| {
      OffsetsEnd(lines, offsets, starts, k);
      var at, length := offsets[k], |lines[starts[k].line]|;
      SyncedLayerExactlyWhen(h, lines, at, k);
      SyncedLayerExactlyWhen(h, lines, at + length, k);
      SyncedLayerExactlyWhen(h, lines, at + length + 1, k + 1);
    }
  }

  lemma TailAddsNothing(h: Host, text: string)
    ensures var all, lines := Split(text, '\n'), Executed(text);
      !BeginsLayer(h, MapLines(h, lines), all[|all| - 1]) ==>
        MapLines(h, all).layerOffsets == MapLines(h, lines).layerOffsets
  {
    hide BeginsLayer, MapLine, Split;
    var all, lines := Split(text, '\n'), Executed(text);
    MapLineOpens(h, MapLines(h, lines), all[|all| - 1]);
    assert MapLines(h, all) == MapLine(h, MapLines(h, lines), all[|all| - 1]);
  }

  /** The same from the text to the drawn objects: one parser run, one map, one synchronisation at each offset. */
  lemma TextSyncAtLayerOffset(h: Host, text: string, k: nat)
    ensures var all, lines := Split(text, '\n'), Executed(text);
      var viewer, r, starts := Parse(h, Session(EMPTY, ""), text).viewer, Finish(MapLines(h, all)), MapStarts(h, lines);
      AllCanonical(h, lines) && ViewerStarts(h, lines) == MapStarts(h, all) && k < |r.layerOffsets| ==>
        && k < |starts| == |r.layerOffsets| && starts[k].line < |lines|
        && SyncsLate(Flush(viewer).objects, lines, r.layerOffsets, starts, k)
  {
    hide BeginsLayer, Parse, Lines, MapLines, Flush, SyncsLate, LineStart, AllCanonical, ViewerStarts, MapStarts, Split;
    ViewerExecutes(h, text);
    ReadersAgreeExactlyWhen(h, text);
    TailAddsNothing(h, text);
    SyncAtLayerOffset(h, Executed(text), k);
  }
}
