/**
 The lines that the viewer and the layer map read as the same words: blanks as the only white space, none before the
 command, and an optional comment at the end.
 */
module PlainLines {
  import opened Text
  import opened GcodeReading
  import opened LayerMap

  /** What stands before the first semicolon. */
  function Code(line: string): (code: string)
    ensures |code| <= |line| && ';' !in code
    ensures |code| < |line| ==> line[|code|] == ';'
  {
    if line == [] || line[0] == ';' then [] else [line[0]] + Code(line[1..])
  }

  /** A comment that both readers remove: at least one character, and none that a dot does not match. */
  predicate Remark(tail: string) { tail == "" || (|tail| > 1 && forall c <- tail[1..] :: !IsLineEnd(c)) }

  predicate OnlyBlanks(s: string) { forall c <- s :: IsSpace(c) ==> c == ' ' }

  predicate AllBlank(s: string) { forall c <- s :: c == ' ' }

  /** No white space but blanks, none of them before the command, and any comment at the end. */
  predicate Plain(line: string) {
    var code := Code(line);
    OnlyBlanks(code) && (AllBlank(code) || code[0] != ' ') && Remark(line[|code|..])
  }

  lemma {:induction false} CommentsGo(line: string)
    requires Remark(line[|Code(line)|..])
    ensures StripComments(line) == Code(line) == StripTail(line)
  {
    if line != [] {
      if line[0] == ';' {
        assert line[1..][0] == line[1] && line[1] in line[1..];
        NothingToSkipTo(line[1..]);
      } else {
        assert line[1..][|Code(line[1..])|..] == line[|Code(line)|..];
        CommentsGo(line[1..]);
      }
    }
  }

  lemma {:induction false} NothingToSkipTo(s: string)
    requires forall c <- s :: !IsLineEnd(c)
    ensures SkipToLineEnd(s) == []
  {
    if s != [] {
      assert s[0] in s && forall c <- s[1..] :: c in s;
      NothingToSkipTo(s[1..]);
    }
  }

  // The viewer splits at every blank and skips empty words, the layer map splits at runs of white space.

  function NonEmpty(words: seq<string>): seq<string> {
    if words == [] then []
    else
      var last := words[|words| - 1];
      NonEmpty(words[..|words| - 1]) + if last == "" then [] else [last]
  }

  lemma {:induction false} NonEmptyAppend(a: seq<string>, b: seq<string>)
    ensures NonEmpty(a + b) == NonEmpty(a) + NonEmpty(b)
    decreases |b|
  {
    if b == [] {
      assert a + b == a;
    } else {
      assert (a + b)[..|a + b| - 1] == a + b[..|b| - 1];
      NonEmptyAppend(a, b[..|b| - 1]);
    }
  }

  lemma {:induction false} EmptyWordsAreIgnored(h: Host, m: Machine, words: seq<string>)
    ensures ReadMove(h, m, NonEmpty(words)) == ReadMove(h, m, words)
    ensures ReadReset(h, m, NonEmpty(words)) == ReadReset(h, m, words)
  {
    if words != [] {
      var front, last := words[..|words| - 1], words[|words| - 1];
      EmptyWordsAreIgnored(h, m, front);
      if last == "" {
        assert NonEmpty(words) == NonEmpty(front);
      } else {
        assert NonEmpty(words) == NonEmpty(front) + [last];
        assert NonEmpty(words)[..|NonEmpty(words)| - 1] == NonEmpty(front);
      }
    }
  }

  /** The same first word, and the same others but for empty ones. */
  predicate SameReading(u: seq<string>, v: seq<string>)
    requires |u| > 0 && |v| > 0
  {
    u[0] == v[0] && NonEmpty(u[1..]) == NonEmpty(v[1..])
  }

  lemma {:induction false} LeadingBlanks(s: string)
    requires OnlyBlanks(s)
    ensures NonEmpty(Split(TrimLeft(s), ' ')) == NonEmpty(Split(s, ' '))
  {
    if s != [] && IsSpace(s[0]) {
      assert s[0] in s && forall c <- s[1..] :: c in s;
      LeadingBlanks(s[1..]);
      assert Split(s, ' ') == [""] + Split(s[1..], ' ');
      NonEmptyAppend([""], Split(s[1..], ' '));
      assert NonEmpty([""]) == [];
    }
  }

  lemma {:induction false} RunsAreBlanks(s: string)
    requires OnlyBlanks(s)
    ensures SameReading(SplitRuns(s), Split(s, ' '))
    decreases |s|
  {
    if s != [] {
      assert s[0] in s && forall c <- s[1..] :: c in s;
      if IsSpace(s[0]) {
        var rest := TrimLeft(s[1..]);
        TrimmedIsPart(s[1..]);
        RunsAreBlanks(rest);
        LeadingBlanks(s[1..]);
        var u, v := SplitRuns(rest), Split(rest, ' ');
        assert u == [u[0]] + u[1..] && v == [v[0]] + v[1..];
        NonEmptyAppend([u[0]], u[1..]);
        NonEmptyAppend([v[0]], v[1..]);
        assert SplitRuns(s)[1..] == SplitRuns(rest) && Split(s, ' ')[1..] == Split(s[1..], ' ');
      } else {
        RunsAreBlanks(s[1..]);
        assert SplitRuns(s)[1..] == SplitRuns(s[1..])[1..] && Split(s, ' ')[1..] == Split(s[1..], ' ')[1..];
      }
    }
  }

  lemma {:induction false} TrimmedIsPart(s: string)
    ensures forall c <- TrimLeft(s) :: c in s
  {
    if s != [] && IsSpace(s[0]) {
      TrimmedIsPart(s[1..]);
    }
  }

  lemma {:induction false} TrailingBlanks(s: string)
    requires OnlyBlanks(s)
    ensures SameReading(Split(TrimRight(s), ' '), Split(s, ' ')) && OnlyBlanks(TrimRight(s))
    ensures s != [] && !IsSpace(s[0]) ==> TrimRight(s) != [] && TrimRight(s)[0] == s[0]
  {
    if s != [] && IsSpace(s[|s| - 1]) {
      var front := s[..|s| - 1];
      assert s[|s| - 1] in s && forall c <- front :: c in s;
      TrailingBlanks(front);
      assert s == front + " ";
      TrailingBlank(front);
    }
  }

  lemma TrailingBlank(front: string)
    ensures SameReading(Split(front, ' '), Split(front + " ", ' '))
  {
    var words := Split(front, ' ');
    SplitAppend(front, " ", ' ');
    assert Split(" ", ' ') == ["", ""];
    hide Split, Glue;
    GlueShape(words, ["", ""]);
    assert words[|words| - 1] + "" == words[|words| - 1];
    assert Split(front + " ", ' ') == words + [""];
    assert (words + [""])[1..] == words[1..] + [""];
    NonEmptyAppend(words[1..], [""]);
    assert [""][..0] == [] && NonEmpty([""]) == [];
  }

  lemma {:induction false} BlankLineIsEmpty(s: string)
    requires AllBlank(s)
    ensures TrimLeft(s) == "" && Split(s, ' ')[0] == ""
  {
    if s != [] {
      assert s[0] in s && forall c <- s[1..] :: c in s;
      BlankLineIsEmpty(s[1..]);
    }
  }

  /** What the two readers make of a plain line. */
  lemma SameWords(line: string)
    requires Plain(line)
    ensures Tokens(line) == Split(Code(line), ' ')
    ensures Command(line) == "" ==> Tokens(line)[0] == ""
    ensures Command(line) != "" ==> SameReading(SplitRuns(Command(line)), Tokens(line))
  {
    var code := Code(line);
    CommentsGo(line);
    if AllBlank(code) {
      BlankLineIsEmpty(code);
    } else {
      assert code[0] in code;
      assert TrimLeft(code) == code;
      TrailingBlanks(code);
      RunsAreBlanks(TrimRight(code));
    }
  }

  // ---------------------------------------------------------------- lines that are not plain

  predicate OneLine(s: string) { forall c <- s :: !IsLineEnd(c) }

  /**
   In a file with carriage returns the layer map keeps every comment, because its pattern has to reach the end of the
   line; the viewer removes it.
   */
  lemma CarriageReturnKeepsComments(code: string, remark: string)
    requires ';' !in code && remark != "" && OneLine(remark)
    ensures StripTail(code + ";" + remark + "\r") == code + ";" + remark + "\r"
    ensures StripComments(code + ";" + remark + "\r") == code + "\r"
  {
    hide StripTail, StripComments;
    var line := code + ";" + remark + "\r";
    KeepsTail(line);
    DropsRemark(code, remark);
    assert line == code + (";" + remark + "\r");
  }

  lemma {:induction false} DropsRemark(code: string, remark: string)
    requires ';' !in code && remark != "" && OneLine(remark)
    ensures StripComments(code + (";" + remark + "\r")) == code + "\r"
  {
    var tail := ";" + remark + "\r";
    var line := code + tail;
    if code == "" {
      assert line == tail && line[1..] == remark + "\r" && line[1] == remark[0] && remark[0] in remark;
      SkipsTo(remark, "\r");
      assert StripComments("\r") == "\r" == code + "\r";
    } else {
      assert line[0] == code[0] && code[0] in code && line[1..] == code[1..] + tail;
      DropsRemark(code[1..], remark);
      assert [code[0]] + (code[1..] + "\r") == code + "\r";
    }
  }

  /** No semicolon starts a comment that reaches the end. */
  lemma {:induction false} KeepsTail(s: string)
    requires s != "" && s[|s| - 1] == '\r'
    ensures StripTail(s) == s
  {
    assert IsLineEnd('\r');
    if |s| > 1 {
      KeepsTail(s[1..]);
      assert s[1..][|s| - 2] == '\r' && '\r' in s[1..];
    } else {
      assert s == "\r";
    }
  }

  lemma {:induction false} SkipsTo(a: string, rest: string)
    requires OneLine(a) && rest != "" && IsLineEnd(rest[0])
    ensures SkipToLineEnd(a + rest) == rest
  {
    if a == "" {
      assert a + rest == rest;
    } else {
      assert a[0] in a && (a + rest)[0] == a[0] && (a + rest)[1..] == a[1..] + rest;
      SkipsTo(a[1..], rest);
    }
  }

  /** Tabs and other white space separate the map's words but not the viewer's. */
  lemma {:induction false} TabsSeparateForTheMap(a: string, c: char, b: string)
    requires b != "" && (forall x <- a + b :: !IsSpace(x)) && c in ['\t', '\n', '\r', '\U{A0}']
    ensures SplitRuns(a + [c] + b) == [a, b] && Split(a + [c] + b, ' ') == [a + [c] + b]
  {
    var s := a + [c] + b;
    forall x | x in s
      ensures x != ' '
    {
      assert x in a + b || x == c;
    }
    Unsplit(s, ' ');
    if a == "" {
      assert s[1..] == b && b[0] in a + b;
      assert forall x <- b :: x in a + b;
      Unspaced(b);
    } else {
      assert s[0] == a[0] && a[0] in a + b && s[1..] == a[1..] + [c] + b;
      assert forall x <- a[1..] + b :: x in a + b;
      TabsSeparateForTheMap(a[1..], c, b);
      assert !IsSpace(a[0]) && [a[0]] + a[1..] == a && SplitRuns(s[1..]) == [a[1..], b];
    }
  }

  lemma {:induction false} Unspaced(s: string)
    requires forall x <- s :: !IsSpace(x)
    ensures SplitRuns(s) == [s]
  {
    if s != "" {
      assert s[0] in s && forall x <- s[1..] :: x in s;
      Unspaced(s[1..]);
      assert [s[0]] + s[1..] == s;
    }
  }

  predicate Numeric(h: Host, words: seq<string>) {
    forall w :: w in words && w != [] ==> h.parseFloat(w[1..]).R?
  }

  /** A line both readers are meant for: a plain line with numbers that parse. */
  predicate Canonical(h: Host, line: string) {
    && Plain(line)
    && var words := Split(Code(line), ' ');
      UpperCommand(words) in ["G0", "G1", "G2", "G3", "G92"] ==> Numeric(h, words[1..])
  }

  function Pick(args: map<char, Num>, key: char, otherwise: real): real {
    if key in args && args[key].R? then args[key].r else otherwise
  }

  function Moved(args: map<char, Num>, key: char, relative: bool, start: real): real {
    if key !in args || args[key].NaN? then start else if relative then start + args[key].r else args[key].r
  }

  ghost predicate AllReals(args: map<char, Num>) { forall k :: k in args ==> args[k].R? }

  /** One reader compares upper-case keys, the other lower-case ones. */
  lemma KeysAgree(c: char)
    ensures (Upper(c) == 'X' <==> Lower(c) == 'x') && (Upper(c) == 'Y' <==> Lower(c) == 'y')
    ensures (Upper(c) == 'Z' <==> Lower(c) == 'z') && (Upper(c) == 'E' <==> Lower(c) == 'e')
  {
  }

  lemma {:induction false} MoveWordsAgree(h: Host, m: Machine, words: seq<string>)
    requires Numeric(h, words)
    ensures var a := Args(h, words);
      && AllReals(a)
      && ReadMove(h, m, words)
         == Target(Moved(a, 'x', m.relative, m.x), Moved(a, 'y', m.relative, m.y), Moved(a, 'z', m.relative, m.z),
                   Moved(a, 'e', m.relativeE, m.e), 'e' in a)
  {
    hide Upper, Lower;
    if words != [] {
      var word := words[|words| - 1];
      MoveWordsAgree(h, m, words[..|words| - 1]);
      if word != [] {
        KeysAgree(word[0]);
      }
    }
  }

  lemma {:induction false} ResetWordsAgree(h: Host, m: Machine, words: seq<string>)
    requires Numeric(h, words)
    ensures var a := Args(h, words);
      && AllReals(a)
      && ReadReset(h, m, words)
         == m.(x := Pick(a, 'x', m.x), y := Pick(a, 'y', m.y), z := Pick(a, 'z', m.z), e := Pick(a, 'e', m.e))
  {
    hide Upper, Lower;
    if words != [] {
      var word := words[|words| - 1];
      ResetWordsAgree(h, m, words[..|words| - 1]);
      if word != [] {
        KeysAgree(word[0]);
      }
    }
  }
}
