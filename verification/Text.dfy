/** The string operations of the two G-code readers: String.split on one character, and comments. */
module Text {

  /** `s.split(sep)` */
  function Split(s: string, sep: char): (pieces: seq<string>)
    ensures |pieces| >= 1
  {
    if s == [] then [""]
    else
      var rest := Split(s[1..], sep);
      if s[0] == sep then [""] + rest else [[s[0]] + rest[0]] + rest[1..]
  }

  function Join(pieces: seq<string>, sep: char): string
    requires |pieces| >= 1
  {
    if |pieces| == 1 then pieces[0] else pieces[0] + [sep] + Join(pieces[1..], sep)
  }

  /** Splitting loses nothing and leaves no separator inside a piece. */
  lemma {:induction false} SplitJoin(s: string, sep: char)
    ensures Join(Split(s, sep), sep) == s
    ensures forall i :: 0 <= i < |Split(s, sep)| ==> sep !in Split(s, sep)[i]
  {
    if s != [] {
      var rest := Split(s[1..], sep);
      SplitJoin(s[1..], sep);
      if s[0] == sep {
        assert ([""] + rest)[1..] == rest;
      } else {
        var pieces := [[s[0]] + rest[0]] + rest[1..];
        assert pieces[1..] == rest[1..];
      }
    }
  }

  /** Two lists of pieces joined by gluing the last of one to the first of the other. */
  function Glue(p: seq<string>, q: seq<string>): seq<string>
    requires |p| >= 1 && |q| >= 1
  {
    if |p| == 1 then [p[0] + q[0]] + q[1..] else [p[0]] + Glue(p[1..], q)
  }

  lemma {:induction false} GlueShape(p: seq<string>, q: seq<string>)
    requires |p| >= 1 && |q| >= 1
    ensures Glue(p, q) == p[..|p| - 1] + [p[|p| - 1] + q[0]] + q[1..]
  {
    if |p| > 1 {
      GlueShape(p[1..], q);
      assert p[..|p| - 1] == [p[0]] + p[1..][..|p| - 2];
    }
  }

  /** Cutting a text at any point: the piece at the cut is glued, the others are unchanged. */
  lemma {:induction false} SplitAppend(a: string, b: string, sep: char)
    ensures Split(a + b, sep) == Glue(Split(a, sep), Split(b, sep))
  {
    var p, q := Split(a, sep), Split(b, sep);
    if a == [] {
      assert a + b == b && "" + q[0] == q[0];
    } else {
      var r := Split(a[1..], sep);
      assert (a + b)[0] == a[0] && (a + b)[1..] == a[1..] + b;
      SplitAppend(a[1..], b, sep);
      if a[0] == sep {
        assert p[1..] == r;
      } else {
        assert [a[0]] + (r[0] + q[0]) == ([a[0]] + r[0]) + q[0];
        assert p[1..] == r[1..];
      }
    }
  }

  /** Prefixing separator-free text extends the first piece only. */
  lemma {:induction false} SplitPrefix(a: string, b: string, sep: char)
    requires sep !in a
    ensures Split(a + b, sep) == Split(b, sep)[0 := a + Split(b, sep)[0]]
  {
    if a == [] {
      assert a + b == b && a + Split(b, sep)[0] == Split(b, sep)[0];
    } else {
      assert (a + b)[0] == a[0] && (a + b)[1..] == a[1..] + b;
      SplitPrefix(a[1..], b, sep);
      assert [a[0]] + (a[1..] + Split(b, sep)[0]) == a + Split(b, sep)[0];
    }
  }

  function Concat(chunks: seq<string>): string {
    if chunks == [] then "" else chunks[0] + Concat(chunks[1..])
  }

  function Contains(s: string, sub: string): bool {
    sub <= s || (s != [] && Contains(s[1..], sub))
  }

  function Upper(c: char): char { if 'a' <= c <= 'z' then c - 'a' + 'A' else c }
  function Lower(c: char): char { if 'A' <= c <= 'Z' then c - 'A' + 'a' else c }

  function UpperAll(s: string): string { seq(|s|, i requires 0 <= i < |s| => Upper(s[i])) }
  function LowerAll(s: string): string { seq(|s|, i requires 0 <= i < |s| => Lower(s[i])) }

  /** Commands and words are compared in one case: exactly the 26 letters have another one. */
  lemma CaseIsIgnored(c: char)
    ensures Upper(Lower(c)) == Upper(c) && Lower(Upper(c)) == Lower(c)
    ensures Upper(c) != c <==> 'a' <= c <= 'z'
    ensures 'a' <= c <= 'z' ==> Upper(c) as int - 'A' as int == c as int - 'a' as int
    ensures UpperAll("g1") == "G1" && UpperAll("m83") == "M83" && LowerAll("Inner") == "inner"
  {
  }

  /** The characters that `.` does not match. */
  predicate IsLineEnd(c: char) { c == '\n' || c == '\r' || c == '\U{2028}' || c == '\U{2029}' }

  predicate IsSpace(c: char) {
    '\t' <= c <= '\r' || c == ' ' || c == '\U{A0}' || c == '\U{1680}' || '\U{2000}' <= c <= '\U{200A}'
    || c == '\U{2028}' || c == '\U{2029}' || c == '\U{202F}' || c == '\U{205F}' || c == '\U{3000}' || c == '\U{FEFF}'
  }

  lemma {:induction false} Unsplit(s: string, sep: char)
    requires sep !in s
    ensures Split(s, sep) == [s]
  {
    if s != [] {
      Unsplit(s[1..], sep);
      assert [s[0]] + s[1..] == s;
    }
  }
}
