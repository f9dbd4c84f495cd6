/** gcode_viewer/js/prettygcode.js, `GCodeParser`: the object whose methods update the viewer in place. */
module GcodeParser {
  import opened Options
  import opened Text
  import opened GcodeReading
  import opened LayerSync

  class Parser {
    const host: Host
    var state: Position
    var layers: seq<Layer>
    var color: Color
    var filePos: nat
    var previousPiece: string
    var objects: seq<Drawn>
    var shown: seq<Display>  // visibility of objects[i]

    function View(): Viewer
      reads this
    {
      Viewer(state, layers, color, filePos, objects)
    }

    function Snapshot(): Session
      reads this
    {
      Session(View(), previousPiece)
    }

    predicate Tracked()
      reads this
    {
      |shown| == |objects|
    }

    constructor (host: Host)
      ensures this.host == host && Snapshot() == Session(EMPTY, "") && Tracked()
    {
      this.host := host;
      state, layers, color, filePos, previousPiece := ORIGIN, [], White, 0, "";
      objects, shown := [], [];
    }

    method AddObject(layer: Layer)
      requires Tracked()
      modifies this`objects, this`shown
      ensures Tracked() && objects == old(objects) + DrawnFrom(layer, |layers|)
    {
      if |layer.vertex| > 2 {
        var drawn := Drawn(layer.z, |layers|, |layer.vertex| / 6, layer.filePositions);
        objects := objects + [drawn];
        shown := shown + [Display(true, drawn.numLines)];
      }
    }

    method StartLayer(z: Num)
      requires Tracked()
      modifies this`objects, this`shown, this`layers
      ensures Tracked() && View() == NewLayer(old(View()), z)
    {
      if layers != [] {
        AddObject(layers[|layers| - 1]);
      }
      layers := layers + [Layer(z, [], [], [])];
    }

    method AddSegment(p1: Position, p2: Position)
      requires Tracked()
      modifies this`objects, this`shown, this`layers
      ensures Tracked() && View() == GcodeReading.AddSegment(host, old(View()), p1, p2)
    {
      if layers == [] {
        StartLayer(p1.z);
      }
      if BadPoint(p1) || BadPoint(p2) {
        return;
      }
      var current := layers[|layers| - 1];
      var vertex := current.vertex + [p1.x, p1.y, p1.z] + [p2.x, p2.y, p2.z];
      var filePositions := current.filePositions + [filePos];
      if host.mirror {
        vertex := vertex + ([p1.x, p1.y, Neg(p1.z)] + [p2.x, p2.y, Neg(p2.z)]);
      }
      var (c, mc) := host.shade(color, p1, p2, |layers| % 2 == 0);
      var colors := current.colors + [c.r, c.g, c.b] + [c.r, c.g, c.b];
      if host.mirror {
        colors := colors + ([mc.r, mc.g, mc.b] + [mc.r, mc.g, mc.b]);
      }
      assert Extend(host, View(), current, p1, p2) == Layer(current.z, vertex, colors, filePositions);
      layers := layers[|layers| - 1 := Layer(current.z, vertex, colors, filePositions)];
    }

    method MoveTo(args: map<char, Num>)
      requires Tracked()
      modifies this`objects, this`shown, this`layers, this`state
      ensures Tracked() && View() == Move(host, old(View()), args)
    {
      var next := Destination(state, args);
      if Positive(Delta(state.relative, state.e, next.e)) {
        if layers == [] || Differs(next.z, layers[|layers| - 1].z) {
          StartLayer(next.z);
        }
      }
      if 'e' in args {
        AddSegment(state, next);
      }
      state := next;
    }

    method FollowArc(args: map<char, Num>, clockwise: bool)
      requires Tracked()
      modifies this`objects, this`shown, this`layers, this`state
      ensures Tracked() && View() == ArcMove(host, old(View()), args, clockwise)
    {
      if 'k' in args || 'r' in args {
        return;
      }
      var segments := ArcPath(host, state, args, clockwise);
      ghost var before := View();
      var index := 1;
      while index < |segments|
        invariant 1 <= index <= |segments|
        invariant Tracked() && View() == AddSegments(host, before, segments, index - 1)
      {
        AddSegment(segments[index - 1], segments[index]);
        index := index + 1;
      }
      state := segments[|segments| - 1];
    }

    method Command(tokens: seq<string>)
      requires Tracked() && |tokens| > 0
      modifies this`objects, this`shown, this`layers, this`state
      ensures Tracked() && View() == Execute(host, old(View()), tokens)
    {
      var cmd, args := UpperCommand(tokens), Args(host, tokens[1..]);
      if cmd == "G0" || cmd == "G1" {
        MoveTo(args);
      } else if cmd == "G2" || cmd == "G3" {
        FollowArc(args, cmd == "G2");
      } else if cmd == "G90" {
        state := state.(relative := false);
      } else if cmd == "G91" {
        state := state.(relative := true);
      } else if cmd == "G92" {
        state := SetPosition(state, args);
      }
    }

    /** Consumes one chunk; the text after its last line feed waits for the next chunk. */
    method Parse(chunk: string)
      requires Tracked()
      modifies this
      ensures Tracked() && Snapshot() == GcodeReading.Parse(host, old(Snapshot()), chunk)
    {
      hide Execute;
      var lines := Split(chunk, '\n');
      lines := lines[0 := previousPiece + lines[0]];
      assert lines == Pieces(previousPiece, chunk);
      ghost var before := View();
      previousPiece := lines[|lines| - 1];
      var i := 0;
      while i < |lines| - 1
        invariant 0 <= i <= |lines| - 1
        invariant Tracked() && View() == Lines(host, before, lines[..i])
        invariant previousPiece == lines[|lines| - 1]
      {
        assert lines[..i + 1][..i] == lines[..i];
        filePos := filePos + |lines[i]| + 1;
        color := CommentColor(lines[i], color);
        Command(Tokens(lines[i]));
        i := i + 1;
      }
    }

    method FinishLoading()
      requires Tracked()
      modifies this`objects, this`shown
      ensures Tracked() && View() == Flush(old(View()))
    {
      if layers != [] {
        AddObject(layers[|layers| - 1]);
      }
    }

    /** Shows the past of a file position; returns the layer the position lies in. */
    method SyncToFilePos(p: int) returns (layer: nat)
      requires Tracked()
      modifies this`shown
      ensures Tracked() && shown == SyncAll(host, objects, p, old(shown))
      ensures layer == SyncedLayer(objects, p)
      ensures Stack(host, objects) ==> TotalShown(shown) == host.Copies() * DrawnBelow(objects, p)
    {
      layer := 0;
      ghost var before := shown;
      var i := 0;
      while i < |objects|
        invariant 0 <= i <= |objects| == |shown|
        invariant forall k :: 0 <= k < i ==> shown[k] == SyncOne(host, objects[k], p, before[k])
        invariant forall k :: i <= k < |shown| ==> shown[k] == before[k]
        invariant layer == SyncedLayer(objects[..i], p)
      {
        var d := objects[i];
        var fpMin, fpMax := At(d.filePositions, 0), At(d.filePositions, |d.filePositions|);
        assert objects[..i + 1][..i] == objects[..i];
        var next := if LessThan(fpMax, p) then Display(true, d.numLines) else shown[i];
        if !LessThan(fpMax, p) {
          if MoreThan(fpMin, p) {
            next := next.(visible := false);
          } else {
            var count := 0;
            while count < |d.filePositions| && d.filePositions[count] < p
              invariant 0 <= count <= PrefixBelow(d.filePositions, p)
            {
              count := count + 1;
            }
            if host.mirror {
              count := count * 2;
            }
            next := Display(true, Min(count, d.numLines));
            layer := d.layerNumber;
          }
        }
        shown := shown[i := next];
        i := i + 1;
      }
      assert objects[..i] == objects;
      assert shown == SyncAll(host, objects, p, before);
      if Stack(host, objects) {
        TotalIsDrawn(host, objects, p, before);
      }
    }

    /** Shows whole layers below layerNumber and lineNumber segments of that layer. */
    method SyncToLayer(layerNumber: nat, lineNumber: Option<nat>) returns (needUpdate: bool)
      requires Tracked()
      modifies this`shown
      ensures Tracked() && forall k :: 0 <= k < |shown| ==>
        shown[k] == LayerSyncOne(host, objects[k], layerNumber, lineNumber, old(shown[k]))
      ensures needUpdate <==> shown != old(shown)
    {
      needUpdate := false;
      var lines := if lineNumber.Some? then Some(lineNumber.value * host.Copies()) else None;
      ghost var before := shown;
      var i := 0;
      while i < |objects|
        invariant 0 <= i <= |objects| == |shown|
        invariant forall k :: 0 <= k < i ==>
          shown[k] == LayerSyncOne(host, objects[k], layerNumber, lineNumber, before[k])
        invariant forall k :: i <= k < |shown| ==> shown[k] == before[k]
        invariant needUpdate <==> exists k :: 0 <= k < i && shown[k] != before[k]
      {
        var d := objects[i];
        if d.layerNumber < layerNumber {
          needUpdate := needUpdate || !shown[i].visible || shown[i].instances != d.numLines;
          shown := shown[i := Display(true, d.numLines)];
        } else if d.layerNumber == layerNumber {
          var count := if lines.None? then d.numLines else Min(lines.value, d.numLines);
          needUpdate := needUpdate || !shown[i].visible || shown[i].instances != count;
          shown := shown[i := Display(true, count)];
        } else {
          needUpdate := needUpdate || shown[i].visible;
          shown := shown[i := shown[i].(visible := false)];
        }
        i := i + 1;
      }
    }
  }
}
