/**
 What ReadAlike means on the lines that both readers are meant for, as a condition on the E words of the program: for
 programs with absolute or relative extrusion (M82, M83), and for absolute ones.
 */
module PlainAgreement {
  import opened Options
  import opened Text
  import opened GcodeReading
  import opened LayerMap
  import opened LayerMapShape
  import opened PlainLines
  import opened LayerAgreement

  predicate EMove(h: Host, m: Map, line: string) { IsMove(line) && TargetOf(h, m, line).hasE }
  predicate Extrudes(h: Host, m: Map, line: string) { EMove(h, m, line) && TargetOf(h, m, line).e > m.machine.e }

  // ---------------------------------------------------------------- one line

  /** A canonical line in absolute coordinates, without arcs; M82 and M83 are free. */
  predicate Straight(h: Host, line: string) {
    Canonical(h, line) && UpperCommand(Tokens(line)) !in ["G2", "G3", "G91"]
  }

  predicate SetsE(line: string) { UpperCommand(Tokens(line)) in ["G0", "G1", "G92"] }

  /** The E word in force: that of this line, or the one before. */
  function WordE(h: Host, line: string, before: real): real {
    if SetsE(line) then Pick(Args(h, Tokens(line)[1..]), 'e', before) else before
  }

  /** Same coordinates; the viewer remembers the last E word, the map the sum that M83 asks for. */
  ghost predicate Beside(s: Position, m: Machine, e: real) {
    s.x == R(m.x) && s.y == R(m.y) && s.z == R(m.z) && s.e == R(e) && !s.relative && !m.relative
  }

  lemma CommandsAgree(h: Host, line: string)
    requires Canonical(h, line)
    ensures var cmd := UpperCommand(Tokens(line));
      && (cmd in ["G0", "G1"] <==> IsMove(line))
      && (Command(line) == "" ==> cmd == "")
      && (Command(line) != "" ==> UpperCommand(SplitRuns(Command(line))) == cmd)
      && (cmd in ["G0", "G1", "G2", "G3", "G92"] ==> Numeric(h, Tokens(line)[1..]))
  {
    SameWords(line);
    hide Tokens, SplitRuns, Command;
  }

  lemma MoveLineReads(h: Host, v: Viewer, m: Map, line: string)
    requires Canonical(h, line) && IsMove(line)
    ensures Line(h, v, line) == Move(h, Advance(v, line), Args(h, Tokens(line)[1..]))
    ensures MapLine(h, m, line) == MoveTo(m, TargetOf(h, m, line)).(byteOffset := m.byteOffset + |line| + 1)
    ensures TargetOf(h, m, line) == ReadMove(h, m.machine, Tokens(line)[1..])
    ensures Numeric(h, Tokens(line)[1..])
  {
    SameWords(line);
    EmptyWordsAreIgnored(h, m.machine, Tokens(line)[1..]);
    EmptyWordsAreIgnored(h, m.machine, SplitRuns(Command(line))[1..]);
  }

  lemma ViewerReadsOther(h: Host, v: Viewer, line: string)
    requires UpperCommand(Tokens(line)) !in ["G0", "G1", "G2", "G3"]
    ensures var cmd, w := UpperCommand(Tokens(line)), Line(h, v, line);
      && w.layers == v.layers
      && w.state == if cmd == "G92" then SetPosition(v.state, Args(h, Tokens(line)[1..]))
                    else if cmd == "G90" then v.state.(relative := false)
                    else if cmd == "G91" then v.state.(relative := true) else v.state
  {
    hide Args, Tokens, CommentColor, Move, ArcMove, SetPosition;
  }

  lemma MapReadsOther(h: Host, m: Map, line: string)
    requires Canonical(h, line) && !IsMove(line)
    ensures var cmd, n := UpperCommand(Tokens(line)), MapLine(h, m, line);
      && n == m.(machine := n.machine, byteOffset := m.byteOffset + |line| + 1)
      && n.machine == if cmd == "G92" then ReadReset(h, m.machine, Tokens(line)[1..])
                      else if cmd == "G90" then m.machine.(relative := false, relativeE := false)
                      else if cmd == "G91" then m.machine.(relative := true, relativeE := true)
                      else if cmd == "M82" then m.machine.(relativeE := false)
                      else if cmd == "M83" then m.machine.(relativeE := true) else m.machine
  {
    CommandsAgree(h, line);
    SameWords(line);
    EmptyWordsAreIgnored(h, m.machine, Tokens(line)[1..]);
    if Command(line) != "" {
      EmptyWordsAreIgnored(h, m.machine, SplitRuns(Command(line))[1..]);
    }
    hide ReadReset, SplitRuns, Tokens, Command, Canonical, Plain, MoveTo, NonEmpty, UpperCommand;
  }

  lemma MoveStates(h: Host, v: Viewer, m: Map, e: real, args: map<char, Num>, t: Target)
    requires Beside(v.state, m.machine, e) && AllReals(args)
    requires t.x == Pick(args, 'x', m.machine.x) && t.y == Pick(args, 'y', m.machine.y)
    requires t.z == Pick(args, 'z', m.machine.z)
    ensures Beside(Move(h, v, args).state, MoveTo(m, t).machine, Pick(args, 'e', e))
    ensures MoveTo(m, t).machine.relativeE == m.machine.relativeE && MoveTo(m, t).machine.e == t.e
  {
    hide AddSegment;
  }

  /** What the map makes of a move, in the arguments that the viewer reads. */
  lemma MoveTarget(h: Host, m: Map, line: string)
    requires Canonical(h, line) && IsMove(line)
    ensures var a, n := Args(h, Tokens(line)[1..]), m.machine;
      && AllReals(a)
      && TargetOf(h, m, line)
         == Target(Moved(a, 'x', n.relative, n.x), Moved(a, 'y', n.relative, n.y), Moved(a, 'z', n.relative, n.z),
                   Moved(a, 'e', n.relativeE, n.e), 'e' in a)
  {
    MoveLineReads(h, EMPTY, m, line);
    MoveWordsAgree(h, m.machine, Tokens(line)[1..]);
    hide Line, MapLine, Tokens, Canonical, Args, ReadMove;
  }

  lemma LineBeside(h: Host, v: Viewer, m: Map, e: real, line: string)
    requires Beside(v.state, m.machine, e) && Straight(h, line)
    ensures Beside(Line(h, v, line).state, MapLine(h, m, line).machine, WordE(h, line, e))
    ensures MapLine(h, m, line).machine.relativeE ==> m.machine.relativeE || UpperCommand(Tokens(line)) == "M83"
    ensures !m.machine.relativeE && m.machine.e == e ==> MapLine(h, m, line).machine.e == WordE(h, line, e)
  {
    CommandsAgree(h, line);
    var args := Args(h, Tokens(line)[1..]);
    if IsMove(line) {
      MoveLineReads(h, v, m, line);
      MoveTarget(h, m, line);
      hide Line, MapLine, Tokens, Canonical, Args, TargetOf, MoveTo, Move, UpperCommand;
      MoveStates(h, Advance(v, line), m, e, args, TargetOf(h, m, line));
    } else {
      ViewerReadsOther(h, v, line);
      MapReadsOther(h, m, line);
      if UpperCommand(Tokens(line)) == "G92" {
        ResetWordsAgree(h, m.machine, Tokens(line)[1..]);
      }
      hide Args, ReadReset, Tokens, Line, MapLine, Canonical, UpperCommand, Numeric;
    }
  }

  /**
   The two readers agree on an E-bearing move to t whose E word is `word`, after the E word `before`. Without a layer
   both must see an extrusion, and the viewer the height where the move ends; later only a new height matters.
   */
  predicate SameFeed(m: Map, t: Target, word: real, before: real) {
    if m.currentLayerZ.None? then t.e > m.machine.e && (word > before || t.z == m.machine.z)
    else m.currentLayerZ != Option.Some(t.z) ==> (word > before <==> t.e > m.machine.e)
  }

  lemma MoveAlike(m: Map, s: Position, e: real, args: map<char, Num>, t: Target)
    requires Beside(s, m.machine, e) && AllReals(args)
    requires t.z == Pick(args, 'z', m.machine.z) && t.hasE == ('e' in args)
    requires !t.hasE ==> t.e == m.machine.e
    ensures MoveOpens(s, CurrentZ(m), args) == (if Opens(m, t) then Option.Some(R(t.z)) else Option.None)
       <==> (t.hasE ==> SameFeed(m, t, Pick(args, 'e', e), e))
  {
    var next := Destination(s, args);
    assert next.z == R(t.z) && next.e == R(Pick(args, 'e', e));
    assert Feeds(s, next) <==> Pick(args, 'e', e) > e;
  }

  lemma AlikeInWords(h: Host, s: Position, m: Map, e: real, line: string)
    requires Beside(s, m.machine, e) && Straight(h, line)
    ensures ReadAlike(h, s, m, line) <==>
      (EMove(h, m, line) ==> SameFeed(m, TargetOf(h, m, line), WordE(h, line, e), e))
  {
    CommandsAgree(h, line);
    if IsMove(line) {
      MoveTarget(h, m, line);
      MoveAlike(m, s, e, Args(h, Tokens(line)[1..]), TargetOf(h, m, line));
    }
    hide Args, Tokens, TargetOf, Canonical, MoveOpens, Opens, SameFeed, UpperCommand;
  }

  // ---------------------------------------------------------------- programs with absolute or relative extrusion

  ghost predicate AllStraight(h: Host, lines: seq<string>) {
    forall i :: 0 <= i < |lines| ==> Straight(h, lines[i])
  }

  /** The last E word of a program. */
  function LastE(h: Host, lines: seq<string>): real {
    if lines == [] then 0.0 else WordE(h, lines[|lines| - 1], LastE(h, lines[..|lines| - 1]))
  }

  lemma {:induction false} LinesBeside(h: Host, lines: seq<string>)
    requires AllStraight(h, lines)
    ensures Beside(Lines(h, EMPTY, lines).state, MapLines(h, lines).machine, LastE(h, lines))
  {
    hide Straight, WordE, Line, MapLine;
    if lines != [] {
      var n := |lines| - 1;
      LinesBeside(h, lines[..n]);
      LineBeside(h, Lines(h, EMPTY, lines[..n]), MapLines(h, lines[..n]), LastE(h, lines[..n]), lines[n]);
    }
  }

  predicate EMoveAt(h: Host, lines: seq<string>, i: int)
    requires 0 <= i < |lines|
  {
    EMove(h, MapLines(h, lines[..i]), lines[i])
  }

  predicate SameFeedAt(h: Host, lines: seq<string>, i: int)
    requires 0 <= i < |lines|
  {
    var m := MapLines(h, lines[..i]);
    SameFeed(m, TargetOf(h, m, lines[i]), WordE(h, lines[i], LastE(h, lines[..i])), LastE(h, lines[..i]))
  }

  /**
   With absolute or relative extrusion the two readers list the same layers if and only if every E-bearing move feeds
   in the eyes of both: the viewer compares its E word with the last one, the map adds it up after M83.
   */
  lemma FeedsAgreeExactlyWhen(h: Host, lines: seq<string>)
    requires AllStraight(h, lines)
    ensures ViewerStarts(h, lines) == MapStarts(h, lines)
       <==> forall i :: 0 <= i < |lines| && EMoveAt(h, lines, i) ==> SameFeedAt(h, lines, i)
  {
    hide Lines, MapLines, LastE, WordE, ReadAlike, SameFeed, TargetOf, Straight, EMove, ViewerStarts, MapStarts;
    StartsAgreeExactlyWhen(h, lines);
    forall i | 0 <= i < |lines|
      ensures AlikeAt(h, lines, i) <==> (EMoveAt(h, lines, i) ==> SameFeedAt(h, lines, i))
    {
      LinesBeside(h, lines[..i]);
      AlikeInWords(h, Lines(h, EMPTY, lines[..i]).state, MapLines(h, lines[..i]), LastE(h, lines[..i]), lines[i]);
    }
    hide AlikeAt, EMoveAt, SameFeedAt;
  }

  // ---------------------------------------------------------------- programs with absolute extrusion

  ghost predicate AllAbsolute(h: Host, lines: seq<string>) {
    AllStraight(h, lines) && forall i :: 0 <= i < |lines| ==> UpperCommand(Tokens(lines[i])) != "M83"
  }

  lemma {:induction false} AbsoluteE(h: Host, lines: seq<string>)
    requires AllAbsolute(h, lines)
    ensures !MapLines(h, lines).machine.relativeE && MapLines(h, lines).machine.e == LastE(h, lines)
  {
    hide Straight, WordE, Line, MapLine, Tokens, UpperCommand;
    if lines != [] {
      var n := |lines| - 1;
      AbsoluteE(h, lines[..n]);
      LinesBeside(h, lines[..n]);
      LineBeside(h, Lines(h, EMPTY, lines[..n]), MapLines(h, lines[..n]), LastE(h, lines[..n]), lines[n]);
    }
  }

  predicate ExtrudesAt(h: Host, lines: seq<string>, i: int)
    requires 0 <= i < |lines|
  {
    Extrudes(h, MapLines(h, lines[..i]), lines[i])
  }

  predicate LayerlessAt(h: Host, lines: seq<string>, i: int)
    requires 0 <= i < |lines|
  {
    MapLines(h, lines[..i]).currentLayerZ.None?
  }

  lemma AbsoluteFeed(h: Host, lines: seq<string>, i: int)
    requires AllAbsolute(h, lines) && 0 <= i < |lines| && EMoveAt(h, lines, i)
    ensures SameFeedAt(h, lines, i) <==> (LayerlessAt(h, lines, i) ==> ExtrudesAt(h, lines, i))
  {
    var m, e := MapLines(h, lines[..i]), LastE(h, lines[..i]);
    AbsoluteE(h, lines[..i]);
    LinesBeside(h, lines[..i]);
    CommandsAgree(h, lines[i]);
    MoveTarget(h, m, lines[i]);
    hide MapLines, LastE, TargetOf, Canonical, Tokens, Args, UpperCommand;
    assert TargetOf(h, m, lines[i]).e == WordE(h, lines[i], e);
  }

  /** The first move that names E, if there is one, extrudes. */
  predicate FirstEMoveExtrudes(h: Host, lines: seq<string>) {
    forall i :: 0 <= i < |lines| && EMoveAt(h, lines, i) && NoEMoves(h, lines, i) ==> ExtrudesAt(h, lines, i)
  }

  predicate NoEMoves(h: Host, lines: seq<string>, n: nat)
    requires n <= |lines|
  {
    forall i :: 0 <= i < n ==> !EMoveAt(h, lines, i)
  }

  lemma NoOpening(h: Host, m: Map, line: string)
    ensures MapLine(h, m, line).currentLayerZ.None? <==> m.currentLayerZ.None? && !Extrudes(h, m, line)
  {
    MapLineOpens(h, m, line);
    hide MapLine;
  }

  /** Until the first extruding E move there is no layer. */
  lemma {:induction false} LayerlessExactlyWhen(h: Host, lines: seq<string>, n: nat)
    requires n <= |lines|
    ensures MapLines(h, lines[..n]).currentLayerZ.None? <==> forall i :: 0 <= i < n ==> !ExtrudesAt(h, lines, i)
  {
    hide MapLine, Extrudes;
    if n > 0 {
      LayerlessExactlyWhen(h, lines, n - 1);
      assert lines[..n][..n - 1] == lines[..n - 1] && lines[..n][n - 1] == lines[n - 1];
      NoOpening(h, MapLines(h, lines[..n - 1]), lines[n - 1]);
      assert ExtrudesAt(h, lines, n - 1) == Extrudes(h, MapLines(h, lines[..n - 1]), lines[n - 1]);
    }
  }

  /** If the least element is marked and nothing marked lies below n, nothing does. */
  lemma {:induction false} NoneBelow(all: set<int>, marked: set<int>, n: nat)
    requires forall i <- all :: i >= 0 && (i in marked || exists j <- all :: j < i)
    requires forall i <- all :: i in marked ==> i >= n
    ensures forall i <- all :: i >= n
  {
    if n > 0 {
      NoneBelow(all, marked, n - 1);
      assert n - 1 !in marked * all;
      assert !exists j <- all :: j < n - 1;
    }
  }

  lemma FirstMoveDecides(h: Host, lines: seq<string>)
    ensures FirstEMoveExtrudes(h, lines) <==>
      forall i :: 0 <= i < |lines| && EMoveAt(h, lines, i) && LayerlessAt(h, lines, i) ==> ExtrudesAt(h, lines, i)
  {
    hide MapLines, EMove, TargetOf;
    forall i | 0 <= i < |lines|
      ensures LayerlessAt(h, lines, i) <==> forall j :: 0 <= j < i ==> !ExtrudesAt(h, lines, j)
      ensures ExtrudesAt(h, lines, i) ==> EMoveAt(h, lines, i)
    {
      LayerlessExactlyWhen(h, lines, i);
    }
    hide EMoveAt, LayerlessAt, ExtrudesAt;
    if FirstEMoveExtrudes(h, lines) {
      var moves := set i | 0 <= i < |lines| && EMoveAt(h, lines, i);
      var extruding := set i | 0 <= i < |lines| && ExtrudesAt(h, lines, i);
      forall i | i in moves
        ensures i in extruding || exists j <- moves :: j < i
      {
        if !NoEMoves(h, lines, i) {
          var j :| 0 <= j < i && EMoveAt(h, lines, j);
          assert j in moves;
        }
      }
      forall i | 0 <= i < |lines| && EMoveAt(h, lines, i) && LayerlessAt(h, lines, i)
        ensures ExtrudesAt(h, lines, i)
      {
        NoneBelow(moves, extruding, i);
        assert forall j :: 0 <= j < i && EMoveAt(h, lines, j) ==> j in moves;
      }
    }
  }

  /** With absolute extrusion the two readers agree if and only if the first E-bearing move extrudes. */
  lemma AbsoluteAgreesExactlyWhen(h: Host, lines: seq<string>)
    requires AllAbsolute(h, lines)
    ensures ViewerStarts(h, lines) == MapStarts(h, lines) <==> FirstEMoveExtrudes(h, lines)
  {
    FeedsAgreeExactlyWhen(h, lines);
    FirstMoveDecides(h, lines);
    forall i | 0 <= i < |lines| && EMoveAt(h, lines, i)
      ensures SameFeedAt(h, lines, i) <==> (LayerlessAt(h, lines, i) ==> ExtrudesAt(h, lines, i))
    {
      AbsoluteFeed(h, lines, i);
    }
    hide EMoveAt, LayerlessAt, ExtrudesAt, SameFeedAt, ViewerStarts, MapStarts, FirstEMoveExtrudes;
  }

  /** The same for texts: the map also reads an unterminated last line. */
  lemma PlainTextsAgreeExactlyWhen(h: Host, text: string)
    requires AllStraight(h, Executed(text))
    ensures var all, lines := Split(text, '\n'), Executed(text);
      var tail := BeginsLayer(h, MapLines(h, lines), all[|all| - 1]);
      && (ViewerStarts(h, lines) == MapStarts(h, all) <==>
            !tail && forall i :: 0 <= i < |lines| && EMoveAt(h, lines, i) ==> SameFeedAt(h, lines, i))
      && (AllAbsolute(h, lines) ==>
            (ViewerStarts(h, lines) == MapStarts(h, all) <==> !tail && FirstEMoveExtrudes(h, lines)))
  {
    hide BeginsLayer, EMoveAt, SameFeedAt, ViewerStarts, MapStarts, MapLines, FirstEMoveExtrudes, AllStraight,
         AllAbsolute, Split;
    var all, lines := Split(text, '\n'), Executed(text);
    ReadersAgreeExactlyWhen(h, text);
    FeedsAgreeExactlyWhen(h, lines);
    if AllAbsolute(h, lines) {
      AbsoluteAgreesExactlyWhen(h, lines);
    }
  }

  lemma RetractionOpens(h: Host, s: Position, m: Map, e: real, line: string)
    requires Beside(s, m.machine, e) && Straight(h, line) && m.currentLayerZ.None?
    requires EMove(h, m, line) && !Extrudes(h, m, line)
    ensures ViewerOpens(h, s, Option.None, line).Some? && MapOpens(h, m, line).None?
  {
    CommandsAgree(h, line);
    MoveTarget(h, m, line);
    hide Tokens, Args, TargetOf, Canonical, UpperCommand, Destination;
  }

  /** A first E move that retracts gives the viewer a layer that the map does not have, whatever M82 or M83 say. */
  lemma EarlyRetractionSplits(h: Host, lines: seq<string>, i: nat)
    requires i < |lines| && AllStraight(h, lines) && NoEMoves(h, lines, i)
    requires EMoveAt(h, lines, i) && !ExtrudesAt(h, lines, i)
    ensures |ViewerStarts(h, lines[..i + 1])| == 1 && ViewerStarts(h, lines[..i + 1])[0].line == i
    ensures MapStarts(h, lines[..i + 1]) == []
  {
    var init, upTo := lines[..i], lines[..i + 1];
    assert upTo[..i] == init && upTo[i] == lines[i];
    forall j | 0 <= j < i
      ensures !EMoveAt(h, init, j) && !ExtrudesAt(h, lines, j)
    {
      assert init[..j] == lines[..j] && !EMoveAt(h, lines, j);
    }
    FeedsAgreeExactlyWhen(h, init);
    LayerlessExactlyWhen(h, lines, i);
    LinesBeside(h, init);
    ViewerMirrors(h, init);
    OffsetsPointToStarts(h, init);
    hide Lines, MapLines, LastE, Straight, ViewerStarts, MapStarts, ViewerOpens, MapOpens, EMove, Extrudes, Beside;
    RetractionOpens(h, Lines(h, EMPTY, init).state, MapLines(h, init), LastE(h, init), lines[i]);
    ViewerStep(h, upTo, i);
    MapStep(h, upTo, i);
  }

  // ---------------------------------------------------------------- relative coordinates and arcs

  ghost predicate RealState(s: Position) { s.x.R? && s.y.R? && s.z.R? && s.e.R? }

  function ZWord(h: Host, line: string): real { Pick(Args(h, Tokens(line)[1..]), 'z', 0.0) }

  /**
   A move without E word is read alike in absolute mode. In relative mode the viewer takes the E position for the
   amount extruded: it begins a layer at a new height whenever E is positive, the map never does.
   */
  lemma TravelIsReadAlikeExactlyWhen(h: Host, s: Position, m: Map, line: string)
    requires Canonical(h, line) && IsMove(line) && !EMove(h, m, line) && RealState(s)
    ensures ReadAlike(h, s, m, line) <==>
      !(s.relative && s.e.r > 0.0 && m.currentLayerZ != Option.Some(s.z.r + ZWord(h, line)))
  {
    CommandsAgree(h, line);
    MoveTarget(h, m, line);
    TravelOpens(s, CurrentZ(m), Args(h, Tokens(line)[1..]));
    hide Args, Tokens, Canonical, UpperCommand, MoveOpens, TargetOf;
  }

  lemma TravelOpens(s: Position, current: Option<Num>, args: map<char, Num>)
    requires RealState(s) && AllReals(args) && 'e' !in args
    ensures MoveOpens(s, current, args).Some? <==>
      s.relative && s.e.r > 0.0 && current != Option.Some(R(s.z.r + Pick(args, 'z', 0.0)))
  {
    assert Destination(s, args).e == s.e;
  }

  function EWord(h: Host, line: string): real { Pick(Args(h, Tokens(line)[1..]), 'e', 0.0) }

  /** The height where a move ends. */
  function ZAfter(h: Host, line: string, relative: bool, z: real): real {
    Moved(Args(h, Tokens(line)[1..]), 'z', relative, z)
  }

  /** An E word that the viewer takes for extrusion; after G91 the sum with the E position has to be positive. */
  predicate ViewerSeesFeed(s: Position, word: real)
    requires RealState(s)
  {
    if s.relative then s.e.r + word > 0.0 else word > s.e.r
  }

  /** An E word that the map takes for extrusion. */
  predicate MapSeesFeed(m: Machine, word: real) { if m.relativeE then word > 0.0 else word > m.e }

  /**
   A move with an E word is read alike in two cases. Where the map begins a layer, the viewer must see extrusion too
   and end at the same height, or, as the first layer, start from it. Elsewhere there must be a layer already, and the
   viewer must not see extrusion at another height.
   */
  ghost predicate FeedsAlike(h: Host, s: Position, m: Map, line: string)
    requires RealState(s)
  {
    var word := EWord(h, line);
    var seen, z := ViewerSeesFeed(s, word), ZAfter(h, line, s.relative, s.z.r);
    var mapZ := ZAfter(h, line, m.machine.relative, m.machine.z);
    if m.currentLayerZ.None? then MapSeesFeed(m.machine, word) && mapZ == if seen then z else s.z.r
    else if MapSeesFeed(m.machine, word) && mapZ != m.currentLayerZ.value then seen && z == mapZ
    else !seen || z == m.currentLayerZ.value
  }

  lemma FeedOpens(s: Position, current: Option<Num>, args: map<char, Num>)
    requires RealState(s) && AllReals(args) && 'e' in args
    ensures var z, seen := R(Moved(args, 'z', s.relative, s.z.r)), ViewerSeesFeed(s, Pick(args, 'e', 0.0));
      MoveOpens(s, current, args) ==
        if current.None? then Option.Some(if seen then z else s.z)
        else if seen && Differs(z, current.value) then Option.Some(z) else Option.None
  {
    var next := Destination(s, args);
    assert next.z == R(Moved(args, 'z', s.relative, s.z.r));
    assert Feeds(s, next) <==> ViewerSeesFeed(s, Pick(args, 'e', 0.0));
  }

  lemma FeedIsReadAlikeExactlyWhen(h: Host, s: Position, m: Map, line: string)
    requires Canonical(h, line) && IsMove(line) && EMove(h, m, line) && RealState(s)
    ensures ReadAlike(h, s, m, line) <==> FeedsAlike(h, s, m, line)
  {
    CommandsAgree(h, line);
    MoveTarget(h, m, line);
    FeedOpens(s, CurrentZ(m), Args(h, Tokens(line)[1..]));
    hide Args, Tokens, Canonical, UpperCommand, MoveOpens, TargetOf, ViewerSeesFeed, Moved;
  }

  /** An arc in I/J form is read alike exactly when there is a layer already, any other always. */
  lemma ArcIsReadAlikeExactlyWhen(h: Host, s: Position, m: Map, line: string)
    requires Canonical(h, line) && UpperCommand(Tokens(line)) in ["G2", "G3"]
    ensures var args := Args(h, Tokens(line)[1..]);
      ReadAlike(h, s, m, line) <==> 'k' in args || 'r' in args || m.currentLayerZ.Some?
  {
    CommandsAgree(h, line);
    hide Tokens, UpperCommand, Args, Canonical;
  }

  /** What the three kinds of lines that may begin a layer have to meet; every other line is read alike. */
  ghost predicate OrdinaryLineAlike(h: Host, s: Position, m: Map, line: string)
    requires RealState(s)
  {
    var cmd, args := UpperCommand(Tokens(line)), Args(h, Tokens(line)[1..]);
    if IsMove(line) then
      if EMove(h, m, line) then FeedsAlike(h, s, m, line)
      else !(s.relative && s.e.r > 0.0 && m.currentLayerZ != Option.Some(s.z.r + ZWord(h, line)))
    else cmd in ["G2", "G3"] ==> 'k' in args || 'r' in args || m.currentLayerZ.Some?
  }

  lemma OrdinaryLineIsReadAlikeExactlyWhen(h: Host, s: Position, m: Map, line: string)
    requires Canonical(h, line) && RealState(s)
    ensures ReadAlike(h, s, m, line) <==> OrdinaryLineAlike(h, s, m, line)
  {
    CommandsAgree(h, line);
    hide Canonical, FeedsAlike, UpperCommand, Tokens, Args, MoveOpens, ArcOpens, RealState, EMove;
    if IsMove(line) {
      if EMove(h, m, line) {
        FeedIsReadAlikeExactlyWhen(h, s, m, line);
      } else {
        TravelIsReadAlikeExactlyWhen(h, s, m, line);
      }
    } else if UpperCommand(Tokens(line)) in ["G2", "G3"] {
      ArcIsReadAlikeExactlyWhen(h, s, m, line);
    }
  }

  // ---------------------------------------------------------------- programs of ordinary lines

  ghost predicate AllCanonical(h: Host, lines: seq<string>) {
    forall i :: 0 <= i < |lines| ==> Canonical(h, lines[i])
  }

  lemma EndsAreReal(h: Host, v: Viewer, args: map<char, Num>, clockwise: bool)
    requires RealState(v.state) && AllReals(args)
    ensures RealState(Move(h, v, args).state) && RealState(SetPosition(v.state, args))
    ensures RealState(ArcMove(h, v, args, clockwise).state)
  {
    var points := ArcPath(h, v.state, args, clockwise);
    assert points[|points| - 1] == Destination(v.state, args);
    hide ArcPath, AddSegments, AddSegment, NewLayer;
  }

  lemma ExecuteKeepsReals(h: Host, v: Viewer, tokens: seq<string>)
    requires |tokens| > 0 && RealState(v.state)
    requires UpperCommand(tokens) in ["G0", "G1", "G2", "G3", "G92"] ==> Numeric(h, tokens[1..])
    ensures RealState(Execute(h, v, tokens).state)
  {
    var cmd, args := UpperCommand(tokens), Args(h, tokens[1..]);
    if cmd in ["G0", "G1", "G2", "G3", "G92"] {
      MoveWordsAgree(h, HOME, tokens[1..]);
      EndsAreReal(h, v, args, cmd == "G2");
      hide Args, ReadMove, UpperCommand, Move, ArcMove, Numeric, SetPosition, RealState, AllReals;
    } else {
      hide Args, UpperCommand, Move, ArcMove, SetPosition;
    }
  }

  lemma CanonicalKeepsReals(h: Host, v: Viewer, line: string)
    requires Canonical(h, line) && RealState(v.state)
    ensures RealState(Line(h, v, line).state)
  {
    CommandsAgree(h, line);
    ExecuteKeepsReals(h, Advance(v, line), Tokens(line));
    hide Tokens, Execute, UpperCommand, CommentColor, Canonical, Numeric;
  }

  lemma {:induction false} ViewerIsReal(h: Host, lines: seq<string>)
    requires AllCanonical(h, lines)
    ensures RealState(Lines(h, EMPTY, lines).state)
  {
    hide Line, Canonical;
    if lines != [] {
      var n := |lines| - 1;
      ViewerIsReal(h, lines[..n]);
      CanonicalKeepsReals(h, Lines(h, EMPTY, lines[..n]), lines[n]);
    }
  }

  ghost predicate OrdinaryLineAlikeAt(h: Host, lines: seq<string>, i: int)
    requires 0 <= i < |lines|
  {
    var s := Lines(h, EMPTY, lines[..i]).state;
    RealState(s) && OrdinaryLineAlike(h, s, MapLines(h, lines[..i]), lines[i])
  }

  /** On every program of ordinary lines, in whatever modes and with arcs, the readers agree exactly under these. */
  lemma OrdinaryProgramsAgreeExactlyWhen(h: Host, lines: seq<string>)
    requires AllCanonical(h, lines)
    ensures ViewerStarts(h, lines) == MapStarts(h, lines) <==>
              forall i :: 0 <= i < |lines| ==> OrdinaryLineAlikeAt(h, lines, i)
  {
    StartsAgreeExactlyWhen(h, lines);
    hide Canonical, ReadAlike, RealState, OrdinaryLineAlike, ViewerStarts, MapStarts, Lines, MapLines;
    forall i | 0 <= i < |lines|
      ensures AlikeAt(h, lines, i) <==> OrdinaryLineAlikeAt(h, lines, i)
    {
      ViewerIsReal(h, lines[..i]);
      OrdinaryLineIsReadAlikeExactlyWhen(h, Lines(h, EMPTY, lines[..i]).state, MapLines(h, lines[..i]), lines[i]);
    }
    hide AlikeAt, OrdinaryLineAlikeAt;
  }
}
