/**
 What the layer map of gcode_viewer/js/bambuddy_adapter.js contains, for every text: where its
 offsets point, and which moves end up in which command list.
 */
module LayerMapShape {
  import opened Options
  import opened Text
  import opened GcodeReading
  import opened LayerMap

  // ---------------------------------------------------------------- lines and offsets

  function LineStart(lines: seq<string>, i: nat): nat
    requires i <= |lines|
  {
    if i == 0 then 0 else LineStart(lines, i - 1) + |lines[i - 1]| + 1
  }

  lemma {:induction false} LineStartPrefix(a: seq<string>, b: seq<string>, i: nat)
    requires i <= |a| && i <= |b| && a[..i] == b[..i]
    ensures LineStart(a, i) == LineStart(b, i)
  {
    if i > 0 {
      assert a[..i - 1] == a[..i][..i - 1] && a[i - 1] == a[..i][i - 1];
      LineStartPrefix(a, b, i - 1);
    }
  }

  lemma {:induction false} LineStartGrows(lines: seq<string>, i: nat, j: nat)
    requires i < j <= |lines|
    ensures LineStart(lines, i) < LineStart(lines, j)
  {
    if i + 1 < j {
      LineStartGrows(lines, i, j - 1);
    }
  }

  lemma {:induction false} LineStartShift(lines: seq<string>, i: nat)
    requires 1 <= i <= |lines|
    ensures LineStart(lines, i) == |lines[0]| + 1 + LineStart(lines[1..], i - 1)
  {
    if i > 1 {
      LineStartShift(lines, i - 1);
    }
  }

  lemma {:induction false} TotalLength(lines: seq<string>)
    requires |lines| >= 1
    ensures LineStart(lines, |lines|) == |Join(lines, '\n')| + 1
  {
    if |lines| > 1 {
      LineStartShift(lines, |lines|);
      TotalLength(lines[1..]);
    } else {
      assert LineStart(lines, 0) == 0;
    }
  }

  lemma SliceAfter(head: string, tail: string, at: nat, len: nat)
    requires at + len <= |tail|
    ensures (head + tail)[|head| + at..|head| + at + len] == tail[at..at + len]
    ensures at > 0 ==> (head + tail)[|head| + at - 1] == tail[at - 1]
  {
  }

  /** LineStart really is where the i-th line of the text begins. */
  lemma {:induction false} LineAt(lines: seq<string>, i: nat)
    requires i < |lines|
    ensures var text, at := Join(lines, '\n'), LineStart(lines, i);
      && at + |lines[i]| <= |text| && text[at..at + |lines[i]|] == lines[i]
      && (i > 0 ==> text[at - 1] == '\n')
  {
    if |lines| > 1 {
      var head, tail := lines[0] + ['\n'], Join(lines[1..], '\n');
      assert Join(lines, '\n') == head + tail;
      if i == 0 {
        assert (head + tail)[0..|lines[0]|] == lines[0];
      } else {
        LineAt(lines[1..], i - 1);
        LineStartShift(lines, i);
        SliceAfter(head, tail, LineStart(lines[1..], i - 1), |lines[i]|);
      }
    }
  }

  /** A layer begins at `line` with height z. */
  datatype Start = Start(line: nat, z: Num)

  function CurrentZ(m: Map): Option<Num> {
    if m.currentLayerZ.Some? then Option.Some(R(m.currentLayerZ.value)) else Option.None
  }

  function LastZ(starts: seq<Start>): Option<Num> {
    if starts == [] then Option.None else Option.Some(starts[|starts| - 1].z)
  }

  function MapStarts(h: Host, lines: seq<string>): seq<Start> {
    if lines == [] then []
    else
      var n := |lines| - 1;
      var before, after := MapLines(h, lines[..n]), MapLines(h, lines);
      if after.layerOffsets != before.layerOffsets && after.currentLayerZ.Some?
      then MapStarts(h, lines[..n]) + [Start(n, R(after.currentLayerZ.value))]
      else MapStarts(h, lines[..n])
  }

  ghost predicate Effect(m: Map, next: Map, length: nat) {
    && next.byteOffset == m.byteOffset + length + 1
    && (next.layerOffsets == m.layerOffsets ==> next.currentLayerZ == m.currentLayerZ)
    && (next.layerOffsets != m.layerOffsets ==> next.layerOffsets == m.layerOffsets + [m.byteOffset]
                                                && next.currentLayerZ.Some? && next.currentLayerZ != m.currentLayerZ)
  }

  lemma MapLineEffect(h: Host, m: Map, raw: string)
    ensures Effect(m, MapLine(h, m, raw), |raw|)
  {
  }

  ghost predicate OffsetsAre(lines: seq<string>, offsets: seq<nat>, starts: seq<Start>) {
    && |offsets| == |starts|
    && (forall k :: 0 <= k < |starts| ==> starts[k].line < |lines| && offsets[k] == LineStart(lines, starts[k].line))
    && (forall j, k :: 0 <= j < k < |starts| ==> starts[j].line < starts[k].line)
    && (forall j, k :: 0 <= j < k < |starts| && k == j + 1 ==> starts[j].z != starts[k].z)
  }

  ghost predicate Located(lines: seq<string>, m: Map, starts: seq<Start>) {
    && OffsetsAre(lines, m.layerOffsets, starts)
    && m.byteOffset == LineStart(lines, |lines|)
    && CurrentZ(m) == LastZ(starts)
  }

  lemma OffsetsExtend(lines: seq<string>, n: nat, offsets: seq<nat>, starts: seq<Start>)
    requires n <= |lines| && OffsetsAre(lines[..n], offsets, starts)
    ensures OffsetsAre(lines, offsets, starts)
  {
    forall k | 0 <= k < |starts|
      ensures starts[k].line < |lines| && offsets[k] == LineStart(lines, starts[k].line)
    {
      LineStartPrefix(lines[..n], lines, starts[k].line);
    }
  }

  lemma NeighboursDiffer(starts: seq<Start>, s: Start)
    requires forall j, k :: 0 <= j < k < |starts| && k == j + 1 ==> starts[j].z != starts[k].z
    requires starts != [] ==> starts[|starts| - 1].z != s.z
    ensures var ss := starts + [s];
      forall j, k :: 0 <= j < k < |ss| && k == j + 1 ==> ss[j].z != ss[k].z
  {
  }

  lemma OffsetsAppend(lines: seq<string>, offsets: seq<nat>, starts: seq<Start>, n: nat, z: Num)
    requires n < |lines| && OffsetsAre(lines, offsets, starts)
    requires forall k :: 0 <= k < |starts| ==> starts[k].line < n
    requires starts != [] ==> starts[|starts| - 1].z != z
    ensures OffsetsAre(lines, offsets + [LineStart(lines, n)], starts + [Start(n, z)])
  {
    NeighboursDiffer(starts, Start(n, z));
    hide LineStart;
    var os, ss := offsets + [LineStart(lines, n)], starts + [Start(n, z)];
    forall k | 0 <= k < |ss|
      ensures ss[k].line < |lines| && os[k] == LineStart(lines, ss[k].line)
    {
      assert k < |starts| ==> ss[k] == starts[k] && os[k] == offsets[k];
    }
  }

  lemma LocatedStep(lines: seq<string>, n: nat, m: Map, starts: seq<Start>, next: Map)
    requires |lines| == n + 1 && Located(lines[..n], m, starts)
    requires Effect(m, next, |lines[n]|)
    ensures Located(lines, next, if next.layerOffsets == m.layerOffsets then starts
                                 else starts + [Start(n, R(next.currentLayerZ.value))])
  {
    LineStartPrefix(lines[..n], lines, n);
    OffsetsExtend(lines, n, m.layerOffsets, starts);
    if next.layerOffsets != m.layerOffsets {
      OffsetsAppend(lines, m.layerOffsets, starts, n, R(next.currentLayerZ.value));
    }
  }

  lemma {:induction false} OffsetsPointToStarts(h: Host, lines: seq<string>)
    ensures Located(lines, MapLines(h, lines), MapStarts(h, lines))
  {
    if lines != [] {
      var n := |lines| - 1;
      var m, next := MapLines(h, lines[..n]), MapLines(h, lines);
      OffsetsPointToStarts(h, lines[..n]);
      MapLineEffect(h, m, lines[n]);
      LocatedStep(lines, n, m, MapStarts(h, lines[..n]), next);
    }
  }

  /** Offsets rise strictly, each at the start of a line, neighbouring layers differ in Z. */
  lemma LayerOffsetsAreLineStarts(h: Host, text: string)
    ensures var lines := Split(text, '\n');
      var r, starts := Finish(MapLines(h, lines)), MapStarts(h, lines);
      && r.totalBytes == |text| + 1
      && OffsetsAre(lines, r.layerOffsets, starts)
      && (forall j, k :: 0 <= j < k < |r.layerOffsets| ==> r.layerOffsets[j] < r.layerOffsets[k])
      && (forall k :: 0 <= k < |r.layerOffsets| ==>
            r.layerOffsets[k] <= |text| && (r.layerOffsets[k] > 0 ==> text[r.layerOffsets[k] - 1] == '\n'))
  {
    var lines := Split(text, '\n');
    var r, starts := Finish(MapLines(h, lines)), MapStarts(h, lines);
    OffsetsPointToStarts(h, lines);
    SplitJoin(text, '\n');
    TotalLength(lines);
    forall j, k | 0 <= j < k < |r.layerOffsets|
      ensures r.layerOffsets[j] < r.layerOffsets[k]
    {
      LineStartGrows(lines, starts[j].line, starts[k].line);
    }
    forall k | 0 <= k < |r.layerOffsets|
      ensures r.layerOffsets[k] <= |text| && (r.layerOffsets[k] > 0 ==> text[r.layerOffsets[k] - 1] == '\n')
    {
      LineAt(lines, starts[k].line);
    }
  }

  // ---------------------------------------------------------------- modes

  function CommandOf(raw: string): string {
    if Command(raw) == "" then "" else UpperCommand(SplitRuns(Command(raw)))
  }

  /** Line i is one of the first commands and no later line is one of the second. */
  predicate SetBy(lines: seq<string>, i: int, on: seq<string>, off: seq<string>)
    requires 0 <= i < |lines|
  {
    CommandOf(lines[i]) in on && forall j :: i < j < |lines| ==> CommandOf(lines[j]) !in off
  }

  ghost predicate InMode(lines: seq<string>, on: seq<string>, off: seq<string>) {
    exists i :: 0 <= i < |lines| && SetBy(lines, i, on, off)
  }

  lemma InModeStep(lines: seq<string>, on: seq<string>, off: seq<string>)
    requires lines != [] && forall c <- on :: c !in off
    ensures var n := |lines| - 1;
      InMode(lines, on, off) <==>
        CommandOf(lines[n]) in on || (CommandOf(lines[n]) !in off && InMode(lines[..n], on, off))
  {
    hide CommandOf;
    var n := |lines| - 1;
    var front := lines[..n];
    if CommandOf(lines[n]) in on {
      assert SetBy(lines, n, on, off);
    } else {
      if i :| 0 <= i < |lines| && SetBy(lines, i, on, off) {
        assert i < n && SetBy(front, i, on, off);
      }
      if i :| 0 <= i < n && SetBy(front, i, on, off) {
        assert CommandOf(lines[n]) !in off ==> SetBy(lines, i, on, off);
      }
    }
  }

  lemma LineModes(h: Host, m: Map, raw: string)
    ensures var n, c := MapLine(h, m, raw).machine, CommandOf(raw);
      && n.relative == (if c == "G91" then true else if c == "G90" then false else m.machine.relative)
      && n.relativeE == (if c == "G91" || c == "M83" then true else if c == "G90" || c == "M82" then false
                         else m.machine.relativeE)
  {
    hide Command, SplitRuns, ReadMove, MoveTo, UpperCommand;
    if Command(raw) != "" {
      ResetKeepsModes(h, m.machine, SplitRuns(Command(raw))[1..]);
      MoveKeepsModes(m, ReadMove(h, m.machine, SplitRuns(Command(raw))[1..]));
    }
    hide ReadReset;
  }

  lemma MoveKeepsModes(m: Map, t: Target)
    ensures MoveTo(m, t).machine == m.machine.(x := t.x, y := t.y, z := t.z, e := t.e)
  {
  }

  lemma {:induction false} ResetKeepsModes(h: Host, m: Machine, words: seq<string>)
    ensures var n := ReadReset(h, m, words); n.relative == m.relative && n.relativeE == m.relativeE
  {
    if words != [] {
      ResetKeepsModes(h, m, words[..|words| - 1]);
    }
  }

  /**
   After any lines coordinates are relative exactly when some G91 is followed by no G90, and extrusion is exactly when
   some G91 or M83 is followed by neither G90 nor M82.
   */
  lemma {:induction false} ModesExactlyWhen(h: Host, lines: seq<string>)
    ensures MapLines(h, lines).machine.relative <==> InMode(lines, ["G91"], ["G90"])
    ensures MapLines(h, lines).machine.relativeE <==> InMode(lines, ["G91", "M83"], ["G90", "M82"])
  {
    if lines != [] {
      var n := |lines| - 1;
      assert "G91" !in ["G90"] && "G91" !in ["G90", "M82"] && "M83" !in ["G90", "M82"];
      ModesExactlyWhen(h, lines[..n]);
      LineModes(h, MapLines(h, lines[..n]), lines[n]);
      InModeStep(lines, ["G91"], ["G90"]);
      InModeStep(lines, ["G91", "M83"], ["G90", "M82"]);
      hide MapLine, CommandOf, InMode;
    }
  }

  // ---------------------------------------------------------------- commands by layer

  /** A move with an E word or to another height, tagged with the number of layers begun when it was read. */
  datatype Entry = Entry(layer: nat, cmd: Cmd)

  predicate IsMove(raw: string) {
    && Command(raw) != ""
    && (UpperCommand(SplitRuns(Command(raw))) == "G0" || UpperCommand(SplitRuns(Command(raw))) == "G1")
  }

  function TargetOf(h: Host, m: Map, raw: string): Target { ReadMove(h, m.machine, SplitRuns(Command(raw))[1..]) }

  function Log(h: Host, lines: seq<string>): seq<Entry> {
    if lines == [] then []
    else
      var n := |lines| - 1;
      var before, t := MapLines(h, lines[..n]), TargetOf(h, MapLines(h, lines[..n]), lines[n]);
      if IsMove(lines[n]) && (t.hasE || t.z != before.machine.z)
      then Log(h, lines[..n]) + [Entry(|MapLines(h, lines).layerOffsets|, Cmd(t.x, t.y, t.z))]
      else Log(h, lines[..n])
  }

  function Group(log: seq<Entry>, layer: nat): seq<Cmd> {
    if log == [] then []
    else
      var before, last := Group(log[..|log| - 1], layer), log[|log| - 1];
      if last.layer == layer then before + [last.cmd] else before
  }

  function Capped(cmds: seq<Cmd>): seq<Cmd> { if |cmds| <= 500 then cmds else cmds[..500] }

  /** The capped groups 0 .. n - 1, without group 0 when it is empty. */
  function Groups(log: seq<Entry>, n: nat): seq<seq<Cmd>> {
    if n == 0 then []
    else if n == 1 && Group(log, 0) == [] then []
    else Groups(log, n - 1) + [Capped(Group(log, n - 1))]
  }

  lemma GroupAppend(log: seq<Entry>, e: Entry, layer: nat)
    ensures Group(log + [e], layer) == if e.layer == layer then Group(log, layer) + [e.cmd] else Group(log, layer)
  {
    assert (log + [e])[..|log|] == log;
  }

  lemma {:induction false} GroupsAppend(log: seq<Entry>, e: Entry, n: nat)
    requires n <= e.layer
    ensures Groups(log + [e], n) == Groups(log, n)
  {
    if n > 0 {
      GroupAppend(log, e, 0);
      GroupAppend(log, e, n - 1);
      GroupsAppend(log, e, n - 1);
    }
  }

  ghost predicate Filed(m: Map, log: seq<Entry>) {
    var n := |m.layerOffsets|;
    && m.curCmds == Capped(Group(log, n))
    && m.layerCmds == Groups(log, n)
    && (forall k :: n < k ==> Group(log, k) == [])
    && (forall k :: 1 <= k <= n ==> Group(log, k) != [])
  }

  lemma CappedAppend(cmds: seq<Cmd>, c: Cmd)
    ensures Capped(cmds + [c]) == if |Capped(cmds)| < MAX_CMDS then Capped(cmds) + [c] else Capped(cmds)
  {
  }

  lemma RecordFiles(m: Map, log: seq<Entry>, c: Cmd)
    requires m.curCmds == Capped(Group(log, |m.layerOffsets|)) && m.layerCmds == Groups(log, |m.layerOffsets|)
    requires forall k :: |m.layerOffsets| < k ==> Group(log, k) == []
    requires forall k :: 1 <= k < |m.layerOffsets| ==> Group(log, k) != []
    ensures Filed(Record(m, true, c), log + [Entry(|m.layerOffsets|, c)])
  {
    var n, e := |m.layerOffsets|, Entry(|m.layerOffsets|, c);
    CappedAppend(Group(log, n), c);
    GroupsAppend(log, e, n);
    forall k: nat
      ensures Group(log + [e], k) == if n == k then Group(log, k) + [c] else Group(log, k)
    {
      GroupAppend(log, e, k);
    }
  }

  lemma OpenFiles(m: Map, log: seq<Entry>, z: real)
    requires Filed(m, log)
    ensures var o := OpenLayer(m, z);
      o.curCmds == Capped(Group(log, |o.layerOffsets|)) && o.layerCmds == Groups(log, |o.layerOffsets|)
  {
    var n := |m.layerOffsets|;
    assert Group(log, n + 1) == [];
    if n > 0 {
      assert Group(log, n) != [];
    }
  }

  lemma LineFiles(h: Host, m: Map, log: seq<Entry>, raw: string)
    requires Filed(m, log)
    ensures var next, t := MapLine(h, m, raw), TargetOf(h, m, raw);
      Filed(next, if IsMove(raw) && Records(m, t) then log + [Entry(|next.layerOffsets|, Cmd(t.x, t.y, t.z))] else log)
  {
    if IsMove(raw) {
      var t := TargetOf(h, m, raw);
      if Records(m, t) {
        if Opens(m, t) {
          OpenFiles(m, log, t.z);
          RecordFiles(OpenLayer(m, t.z), log, Cmd(t.x, t.y, t.z));
        } else {
          RecordFiles(m, log, Cmd(t.x, t.y, t.z));
        }
      }
    }
  }

  lemma {:induction false} LinesFile(h: Host, lines: seq<string>)
    ensures Filed(MapLines(h, lines), Log(h, lines))
  {
    if lines != [] {
      var n := |lines| - 1;
      LinesFile(h, lines[..n]);
      LineFiles(h, MapLines(h, lines[..n]), Log(h, lines[..n]), lines[n]);
    }
  }

  function Preamble(log: seq<Entry>): nat { if Group(log, 0) == [] then 0 else 1 }

  lemma {:induction false} GroupsShape(log: seq<Entry>, n: nat)
    requires n > 0 && forall k :: 1 <= k < n ==> Group(log, k) != []
    ensures |Groups(log, n)| == n - 1 + Preamble(log)
    ensures forall k :: 0 <= k < |Groups(log, n)| ==> 1 <= |Groups(log, n)[k]| <= 500
    ensures forall k :: 1 - Preamble(log) <= k < n ==> Groups(log, n)[k - 1 + Preamble(log)] == Capped(Group(log, k))
  {
    if n > 1 {
      GroupsShape(log, n - 1);
      assert Group(log, n - 1) != [];
    }
  }

  lemma FinishFiles(m: Map, log: seq<Entry>)
    requires Filed(m, log)
    ensures Finish(m).layerCmds == Groups(log, |m.layerOffsets| + 1)
    ensures forall k :: 1 <= k < |m.layerOffsets| + 1 ==> Group(log, k) != []
  {
    var n := |m.layerOffsets|;
    assert n > 0 ==> Group(log, n) != [];
  }

  /**
   Every layer's list is the first 500 moves read since the layer began, in file order, preceded by
   one extra list exactly when a move was recorded before the first extrusion: only without such a
   move is `layerCmds[k]` the list of layer k. No list is empty, so the gap branch never fires.
   */
  lemma LayerCmdsHoldTheMoves(h: Host, text: string)
    ensures var r, log := Finish(MapLines(h, Split(text, '\n'))), Log(h, Split(text, '\n'));
      && |r.layerCmds| == |r.layerOffsets| + Preamble(log)
      && (forall k :: 0 <= k < |r.layerCmds| ==> 1 <= |r.layerCmds[k]| <= 500)
      && (forall k :: 1 - Preamble(log) <= k <= |r.layerOffsets| ==>
            r.layerCmds[k - 1 + Preamble(log)] == Capped(Group(log, k)))
  {
    var lines := Split(text, '\n');
    var m, log := MapLines(h, lines), Log(h, lines);
    LinesFile(h, lines);
    FinishFiles(m, log);
    GroupsShape(log, |m.layerOffsets| + 1);
  }
}
