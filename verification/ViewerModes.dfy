/**
 gcode_viewer/js/prettygcode.js: how long G91 lasts in the viewer, and the branch of the position sync that never runs.
 */
module ViewerModes {
  import opened Text
  import opened GcodeReading
  import opened LayerSync

  predicate SetsRelative(line: string) { UpperCommand(Tokens(line)) == "G91" }

  /** G90, and every move that is carried out: it leaves a state object without `relative`. */
  predicate ClearsRelative(h: Host, line: string) {
    var cmd, args := UpperCommand(Tokens(line)), Args(h, Tokens(line)[1..]);
    || cmd in ["G90", "G0", "G1"]
    || (cmd in ["G2", "G3"] && 'k' !in args && 'r' !in args)
  }

  lemma LineMode(h: Host, v: Viewer, line: string)
    ensures Line(h, v, line).state.relative
         == if SetsRelative(line) then true else if ClearsRelative(h, line) then false else v.state.relative
  {
    hide Args, Destination, AddSegments, AddSegment, NewLayer, CommentColor;
    var tokens := Tokens(line);
    var args := Args(h, tokens[1..]);
    var at := Advance(v, line);
    MoveMode(h, at, args);
    ArcMode(h, at, args, UpperCommand(tokens) == "G2");
    assert SetPosition(at.state, args).relative == at.state.relative;
    hide Move, ArcMove, SetPosition;
  }

  lemma MoveMode(h: Host, v: Viewer, args: map<char, Num>)
    ensures !Move(h, v, args).state.relative
  {
    hide AddSegment, NewLayer, Axis;
  }

  lemma ArcMode(h: Host, v: Viewer, args: map<char, Num>, clockwise: bool)
    ensures 'k' !in args && 'r' !in args ==> !ArcMove(h, v, args, clockwise).state.relative
    ensures 'k' in args || 'r' in args ==> ArcMove(h, v, args, clockwise) == v
  {
    hide AddSegments, Interpolate, Axis;
  }

  /** Line i switches to relative mode and no later line clears it again. */
  predicate RelativeSince(h: Host, lines: seq<string>, i: int)
    requires 0 <= i < |lines|
  {
    SetsRelative(lines[i]) && forall j :: i < j < |lines| ==> !ClearsRelative(h, lines[j])
  }

  /** The viewer is in relative mode exactly when no move has been carried out, and no G90 read, since the last G91. */
  lemma {:induction false} RelativeExactlyWhen(h: Host, lines: seq<string>)
    ensures Lines(h, EMPTY, lines).state.relative <==> exists i :: 0 <= i < |lines| && RelativeSince(h, lines, i)
  {
    hide Line, Tokens, Args, UpperCommand;
    if lines != [] {
      var n := |lines| - 1;
      var front, last := lines[..n], lines[n];
      assert !(SetsRelative(last) && ClearsRelative(h, last));
      hide SetsRelative, ClearsRelative;
      RelativeExactlyWhen(h, front);
      LineMode(h, Lines(h, EMPTY, front), last);
      if SetsRelative(last) {
        assert RelativeSince(h, lines, n);
      } else if !ClearsRelative(h, last) {
        if i :| 0 <= i < n && RelativeSince(h, front, i) {
          assert RelativeSince(h, lines, i);
        }
        if i :| 0 <= i < |lines| && RelativeSince(h, lines, i) {
          assert RelativeSince(h, front, i);
        }
      }
    }
  }

  predicate SetsAbsolute(line: string) { UpperCommand(Tokens(line)) == "G90" }

  /** The mode of a machine that follows the program: the last G90 or G91 decides. */
  function MachineRelative(lines: seq<string>): bool {
    if lines == [] then false
    else
      var last := lines[|lines| - 1];
      if SetsRelative(last) then true
      else if SetsAbsolute(last) then false
      else MachineRelative(lines[..|lines| - 1])
  }

  /** A move has been carried out since the last line that names a mode. */
  predicate MovedSince(h: Host, lines: seq<string>) {
    if lines == [] then false
    else
      var last := lines[|lines| - 1];
      if SetsRelative(last) || SetsAbsolute(last) then false
      else ClearsRelative(h, last) || MovedSince(h, lines[..|lines| - 1])
  }

  /** The viewer's mode differs from the machine's exactly on relative programs from the first move on. */
  lemma {:induction false} ModeIsLostExactlyWhen(h: Host, lines: seq<string>)
    ensures Lines(h, EMPTY, lines).state.relative != MachineRelative(lines)
       <==> MachineRelative(lines) && MovedSince(h, lines)
  {
    hide Line, Tokens;
    if lines != [] {
      var n := |lines| - 1;
      ModeIsLostExactlyWhen(h, lines[..n]);
      LineMode(h, Lines(h, EMPTY, lines[..n]), lines[n]);
    }
  }

  lemma Word(line: string)
    requires ';' !in line && ' ' !in line
    ensures Tokens(line) == [line]
  {
    Stripped(line);
    Unsplit(line, ' ');
  }

  lemma {:induction false} Stripped(s: string)
    requires ';' !in s
    ensures StripComments(s) == s
  {
    if s != [] {
      Stripped(s[1..]);
    }
  }

  /** The shortest instance: one move, without any word, ends relative mode. */
  lemma RelativeModeIsLostAtTheFirstMove(h: Host)
    ensures Lines(h, EMPTY, ["G91"]).state.relative
    ensures !Lines(h, EMPTY, ["G91", "G1"]).state.relative && MachineRelative(["G91", "G1"])
  {
    Word("G91");
    Word("G1");
    assert UpperAll("G91") == "G91" && UpperAll("G1") == "G1";
    hide Line, Tokens;
    var one, two := ["G91"], ["G91", "G1"];
    assert two[..1] == one && one[..0] == [];
    LineMode(h, EMPTY, "G91");
    assert Lines(h, EMPTY, one) == Line(h, Lines(h, EMPTY, []), "G91");
    LineMode(h, Lines(h, EMPTY, one), "G1");
    assert Lines(h, EMPTY, two) == Line(h, Lines(h, EMPTY, one), "G1");
    assert MachineRelative(one);
  }

  /** The position read one past the end is undefined, so no object is ever taken to lie wholly in the past. */
  lemma PastBranchNeverRuns(h: Host, d: Drawn, p: int, before: Display)
    ensures !LessThan(At(d.filePositions, |d.filePositions|), p)
    ensures SyncOne(h, d, p, before) ==
      if MoreThan(At(d.filePositions, 0), p) then before.(visible := false)
      else Display(true, Min(PrefixBelow(d.filePositions, p) * h.Copies(), d.numLines))
  {
  }
}
