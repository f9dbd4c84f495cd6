/**
 Programs with relative extrusion on which the two readers part: the layer map follows M83, the viewer does not know it
 and compares neighbouring E words.
 */
module RelativeExtrusion {
  import opened Options
  import opened Text
  import opened GcodeReading
  import opened LayerMap
  import opened LayerMapShape
  import opened PlainLines
  import opened LayerAgreement
  import opened PlainAgreement

  /** A move with the E word w that names its height. */
  predicate Feed(h: Host, line: string, w: real) {
    && Straight(h, line) && IsMove(line)
    && var args := Args(h, Tokens(line)[1..]);
      'e' in args && args['e'] == R(w) && 'z' in args
  }

  lemma MapFeeds(h: Host, m: Map, line: string, w: real)
    requires Feed(h, line, w) && !m.machine.relative && m.machine.relativeE && w > 0.0
    ensures MapOpens(h, m, line)
         == if m.currentLayerZ == Option.Some(ZWord(h, line)) then Option.None else Option.Some(R(ZWord(h, line)))
    ensures MapLine(h, m, line).machine.relativeE && CurrentZ(MapLine(h, m, line)) == Option.Some(R(ZWord(h, line)))
  {
    MoveTarget(h, m, line);
    MoveLineReads(h, EMPTY, m, line);
    MapLineOpens(h, m, line);
    hide Tokens, Args, TargetOf, Straight, Line, MapLine;
  }

  lemma ViewerFeeds(h: Host, s: Position, current: Option<Num>, m: Map, e: real, line: string, w: real)
    requires Beside(s, m.machine, e) && Feed(h, line, w)
    ensures WordE(h, line, e) == w
    ensures current.None? ==> ViewerOpens(h, s, current, line).Some?
    ensures current.Some? && w <= e ==> ViewerOpens(h, s, current, line).None?
  {
    CommandsAgree(h, line);
    MoveTarget(h, m, line);
    hide Tokens, Args, TargetOf, Canonical, UpperCommand;
  }

  lemma SwitchOnly(h: Host, line: string)
    requires Straight(h, line) && UpperCommand(Tokens(line)) == "M83"
    ensures MapLine(h, NOTHING, line).machine.relativeE && MapLine(h, NOTHING, line).layerOffsets == []
    ensures Line(h, EMPTY, line).layers == []
  {
    CommandsAgree(h, line);
    MapReadsOther(h, NOTHING, line);
    ViewerReadsOther(h, EMPTY, line);
    hide Tokens, Canonical, UpperCommand, Line, MapLine;
  }

  /** M83, and then moves with one and the same E word. */
  ghost predicate EvenFeeds(h: Host, lines: seq<string>, w: real) {
    && lines != [] && Straight(h, lines[0]) && UpperCommand(Tokens(lines[0])) == "M83"
    && forall i :: 0 < i < |lines| ==> Feed(h, lines[i], w)
  }

  /** As many layers in the map as there are moves, and at most one in the viewer. */
  ghost predicate Apart(h: Host, lines: seq<string>, w: real)
    requires lines != []
  {
    var m := MapLines(h, lines);
    && m.machine.relativeE && |MapStarts(h, lines)| == |lines| - 1
    && |ViewerStarts(h, lines)| == (if |lines| == 1 then 0 else 1)
    && (if |lines| == 1 then m.currentLayerZ.None?
        else CurrentZ(m) == Option.Some(R(ZWord(h, lines[|lines| - 1]))) && LastE(h, lines) == w)
  }

  /**
   Extruding the same amount at one new height after the other, in relative mode: the map begins a layer at each
   height, the viewer none but the first.
   */
  lemma {:induction false} RelativeExtrusionSplits(h: Host, lines: seq<string>, w: real)
    requires EvenFeeds(h, lines, w) && w > 0.0
    requires forall i, j :: 0 < i < j < |lines| && j == i + 1 ==> ZWord(h, lines[i]) != ZWord(h, lines[j])
    ensures |MapStarts(h, lines)| == |lines| - 1
    ensures |ViewerStarts(h, lines)| == if |lines| == 1 then 0 else 1
    ensures Apart(h, lines, w)
  {
    hide Line, MapLine, ViewerOpens, MapOpens, WordE, ZWord, Straight, MapStarts, ViewerStarts, UpperCommand;
    var n := |lines| - 1;
    var init := lines[..n];
    var v, m, e := Lines(h, EMPTY, init), MapLines(h, init), LastE(h, init);
    assert LastE(h, lines) == WordE(h, lines[n], e);
    assert MapLines(h, lines) == MapLine(h, m, lines[n]) && Lines(h, EMPTY, lines) == Line(h, v, lines[n]);
    ViewerMirrors(h, lines);
    OffsetsPointToStarts(h, lines);
    if n == 0 {
      SwitchOnly(h, lines[0]);
    } else {
      RelativeExtrusionSplits(h, init, w);
      assert AllStraight(h, init) && Feed(h, lines[n], w);
      hide Feed;
      LinesBeside(h, init);
      MapFeeds(h, m, lines[n], w);
      ViewerMirrors(h, init);
      ViewerFeeds(h, v.state, CurrentLayer(v), m, e, lines[n], w);
      ViewerStep(h, lines, n);
      MapStep(h, lines, n);
      OffsetsPointToStarts(h, init);
      hide LastE, MapLines, Lines, EvenFeeds;
    }
  }
}
