/**
 gcode_viewer/js/bambuddy_adapter.js, `parseGcodeLayerMap`: a second, one-pass reader of the same
 G-code that maps layers to file offsets and collects the moves of each layer.
 */
module LayerMap {
  import opened Options
  import opened Text
  import opened GcodeReading

  /** One ` G1 X.. Y.. Z..` entry before it is formatted. */
  datatype Cmd = Cmd(x: real, y: real, z: real)

  datatype Machine = Machine(x: real, y: real, z: real, e: real, relative: bool, relativeE: bool)

  datatype Map = Map(machine: Machine, currentLayerZ: Option<real>, curCmds: seq<Cmd>,
                     layerOffsets: seq<nat>, layerCmds: seq<seq<Cmd>>, byteOffset: nat)

  const HOME := Machine(0.0, 0.0, 0.0, 0.0, false, false)
  const NOTHING := Map(HOME, None, [], [], [], 0)
  const MAX_CMDS := 500

  // ---------------------------------------------------------------- reading one line

  /** `raw.replace(/;.*$/, '')`: the comment must reach the end without a line terminator. */
  function StripTail(s: string): string {
    if s == [] then []
    else if s[0] == ';' && (forall c :: c in s[1..] ==> !IsLineEnd(c)) then []
    else [s[0]] + StripTail(s[1..])
  }

  function TrimLeft(s: string): (r: string)
    ensures |r| <= |s|
  {
    if s != [] && IsSpace(s[0]) then TrimLeft(s[1..]) else s
  }

  function TrimRight(s: string): string {
    if s != [] && IsSpace(s[|s| - 1]) then TrimRight(s[..|s| - 1]) else s
  }

  /** `cmd.split(/\s+/)` */
  function SplitRuns(s: string): (pieces: seq<string>)
    ensures |pieces| >= 1
    decreases |s|
  {
    if s == [] then [""]
    else if IsSpace(s[0]) then [""] + SplitRuns(TrimLeft(s[1..]))
    else
      var rest := SplitRuns(s[1..]);
      [[s[0]] + rest[0]] + rest[1..]
  }

  function Command(raw: string): string { TrimRight(TrimLeft(StripTail(raw))) }

  /** The target while the words of a move are read one after the other. */
  datatype Target = Target(x: real, y: real, z: real, e: real, hasE: bool)

  function Shift(relative: bool, start: real, v: real): real { if relative then start + v else v }

  function ReadMove(h: Host, m: Machine, words: seq<string>): Target {
    if words == [] then Target(m.x, m.y, m.z, m.e, false)
    else
      var t, word := ReadMove(h, m, words[..|words| - 1]), words[|words| - 1];
      if word == [] || h.parseFloat(word[1..]).NaN? then t
      else
        var key, v := Upper(word[0]), h.parseFloat(word[1..]).r;
        if key == 'X' then t.(x := Shift(m.relative, m.x, v))
        else if key == 'Y' then t.(y := Shift(m.relative, m.y, v))
        else if key == 'Z' then t.(z := Shift(m.relative, m.z, v))
        else if key == 'E' then t.(e := Shift(m.relativeE, m.e, v), hasE := true)
        else t
  }

  function ReadReset(h: Host, m: Machine, words: seq<string>): Machine {
    if words == [] then m
    else
      var t, word := ReadReset(h, m, words[..|words| - 1]), words[|words| - 1];
      if word == [] || h.parseFloat(word[1..]).NaN? then t
      else
        var key, v := Upper(word[0]), h.parseFloat(word[1..]).r;
        if key == 'X' then t.(x := v)
        else if key == 'Y' then t.(y := v)
        else if key == 'Z' then t.(z := v)
        else if key == 'E' then t.(e := v)
        else t
  }

  /** First extrusion at a Z that differs from the current layer's. */
  predicate Opens(m: Map, t: Target) {
    t.hasE && t.e > m.machine.e && m.currentLayerZ != Some(t.z)
  }

  predicate Records(m: Map, t: Target) { t.hasE || t.z != m.machine.z }

  function OpenLayer(m: Map, z: real): Map {
    m.(currentLayerZ := Some(z),
       layerCmds := if |m.curCmds| > 0 then m.layerCmds + [m.curCmds]
                    else if |m.layerOffsets| > 0 then m.layerCmds + [[]]
                    else m.layerCmds,
       curCmds := [],
       layerOffsets := m.layerOffsets + [m.byteOffset])
  }

  function Record(m: Map, records: bool, c: Cmd): Map {
    if records && |m.curCmds| < MAX_CMDS then m.(curCmds := m.curCmds + [c]) else m
  }

  function MoveTo(m: Map, t: Target): Map {
    var started := if Opens(m, t) then OpenLayer(m, t.z) else m;
    Record(started, Records(m, t), Cmd(t.x, t.y, t.z))
      .(machine := m.machine.(x := t.x, y := t.y, z := t.z, e := t.e))
  }

  function Step(h: Host, m: Map, words: seq<string>): Map
    requires |words| > 0
  {
    var g := UpperCommand(words);
    if g == "G90" then m.(machine := m.machine.(relative := false, relativeE := false))
    else if g == "G91" then m.(machine := m.machine.(relative := true, relativeE := true))
    else if g == "M82" then m.(machine := m.machine.(relativeE := false))
    else if g == "M83" then m.(machine := m.machine.(relativeE := true))
    else if g == "G92" then m.(machine := ReadReset(h, m.machine, words[1..]))
    else if g == "G0" || g == "G1" then MoveTo(m, ReadMove(h, m.machine, words[1..]))
    else m
  }

  function MapLine(h: Host, m: Map, raw: string): Map {
    var next := if Command(raw) == "" then m else Step(h, m, SplitRuns(Command(raw)));
    next.(byteOffset := m.byteOffset + |raw| + 1)
  }

  function MapLines(h: Host, lines: seq<string>): Map {
    if lines == [] then NOTHING else MapLine(h, MapLines(h, lines[..|lines| - 1]), lines[|lines| - 1])
  }

  datatype Result = Result(layerOffsets: seq<nat>, layerCmds: seq<seq<Cmd>>, totalBytes: nat)

  function Finish(m: Map): Result {
    Result(m.layerOffsets, if |m.curCmds| > 0 then m.layerCmds + [m.curCmds] else m.layerCmds, m.byteOffset)
  }

  // ---------------------------------------------------------------- the one-pass loop

  method ReadResetWords(h: Host, m: Machine, parts: seq<string>) returns (r: Machine)
    requires |parts| > 0
    ensures r == ReadReset(h, m, parts[1..])
  {
    r := m;
    var p := 1;
    while p < |parts|
      invariant 1 <= p <= |parts|
      invariant r == ReadReset(h, m, parts[1..p])
    {
      assert parts[1..p + 1][..p - 1] == parts[1..p];
      if parts[p] != [] && h.parseFloat(parts[p][1..]).R? {
        var k, v := Upper(parts[p][0]), h.parseFloat(parts[p][1..]).r;
        if k == 'X' { r := r.(x := v); }
        else if k == 'Y' { r := r.(y := v); }
        else if k == 'Z' { r := r.(z := v); }
        else if k == 'E' { r := r.(e := v); }
      }
      p := p + 1;
    }
    assert parts[1..p] == parts[1..];
  }

  method ReadMoveWords(h: Host, m: Machine, parts: seq<string>)
      returns (nx: real, ny: real, nz: real, ne: real, hasE: bool)
    requires |parts| > 0
    ensures Target(nx, ny, nz, ne, hasE) == ReadMove(h, m, parts[1..])
  {
    nx, ny, nz, ne, hasE := m.x, m.y, m.z, m.e, false;
    var p := 1;
    while p < |parts|
      invariant 1 <= p <= |parts|
      invariant Target(nx, ny, nz, ne, hasE) == ReadMove(h, m, parts[1..p])
    {
      assert parts[1..p + 1][..p - 1] == parts[1..p];
      if parts[p] != [] && h.parseFloat(parts[p][1..]).R? {
        var k, v := Upper(parts[p][0]), h.parseFloat(parts[p][1..]).r;
        if k == 'X' { nx := if m.relative then m.x + v else v; }
        else if k == 'Y' { ny := if m.relative then m.y + v else v; }
        else if k == 'Z' { nz := if m.relative then m.z + v else v; }
        else if k == 'E' { ne, hasE := if m.relativeE then m.e + v else v, true; }
      }
      p := p + 1;
    }
    assert parts[1..p] == parts[1..];
  }

  method ParseGcodeLayerMap(h: Host, text: string) returns (r: Result)
    ensures r == Finish(MapLines(h, Split(text, '\n')))
  {
    hide StripTail, TrimLeft, TrimRight, SplitRuns, Command, UpperAll, ReadMove, ReadReset, Split;
    var lines := Split(text, '\n');
    var layerOffsets: seq<nat>, layerCmds: seq<seq<Cmd>>, byteOffset: nat := [], [], 0;
    var m := HOME;
    var currentLayerZ: Option<real> := None;
    var curCmds: seq<Cmd> := [];
    var i := 0;
    while i < |lines|
      invariant 0 <= i <= |lines|
      invariant MapLines(h, lines[..i]) == Map(m, currentLayerZ, curCmds, layerOffsets, layerCmds, byteOffset)
    {
      assert lines[..i + 1][..i] == lines[..i];
      var cmd := Command(lines[i]);
      if cmd != "" {
        var parts := SplitRuns(cmd);
        var g := UpperCommand(parts);
        if g == "G90" {
          m := m.(relative := false, relativeE := false);
        } else if g == "G91" {
          m := m.(relative := true, relativeE := true);
        } else if g == "M82" {
          m := m.(relativeE := false);
        } else if g == "M83" {
          m := m.(relativeE := true);
        } else if g == "G92" {
          m := ReadResetWords(h, m, parts);
        } else if g == "G0" || g == "G1" {
          var nx, ny, nz, ne, hasE := ReadMoveWords(h, m, parts);
          if hasE && ne > m.e && currentLayerZ != Some(nz) {
            currentLayerZ := Some(nz);
            if |curCmds| > 0 {
              layerCmds := layerCmds + [curCmds];
            } else if |layerOffsets| > 0 {
              layerCmds := layerCmds + [[]];
            }
            curCmds := [];
            layerOffsets := layerOffsets + [byteOffset];
          }
          if (hasE || nz != m.z) && |curCmds| < MAX_CMDS {
            curCmds := curCmds + [Cmd(nx, ny, nz)];
          }
          m := m.(x := nx, y := ny, z := nz, e := ne);
        }
      }
      byteOffset := byteOffset + |lines[i]| + 1;
      i := i + 1;
    }
    assert lines[..i] == lines;
    if |curCmds| > 0 {
      layerCmds := layerCmds + [curCmds];
    }
    return Result(layerOffsets, layerCmds, byteOffset);
  }
}
