/**
The string operations of Go's `strings` package that the content tools are built from.
Text is a sequence of Unicode code points.
*/
module Text {

  datatype Option<+T> = None | Some(value: T)

  const LF := '\n'
  const CR := "\r"

  // unicode.IsSpace
  predicate IsSpace(c: char) {
    || '\t' <= c <= '\r'
    || c == ' '
    || c == '\U{0085}' || c == '\U{00A0}' || c == '\U{1680}'
    || '\U{2000}' <= c <= '\U{200a}'
    || c == '\U{2028}' || c == '\U{2029}' || c == '\U{202f}' || c == '\U{205f}' || c == '\U{3000}'
  }

  predicate Blank(s: string) {
    forall c <- s :: IsSpace(c)
  }

  // A string strings.TrimSpace leaves alone
  predicate IsTrimmed(s: string) {
    s != "" ==> !IsSpace(s[0]) && !IsSpace(s[|s| - 1])
  }

  function TrimLeft(s: string): string {
    if s != "" && IsSpace(s[0]) then TrimLeft(s[1..]) else s
  }

  function TrimRight(s: string): string {
    if s != "" && IsSpace(s[|s| - 1]) then TrimRight(s[..|s| - 1]) else s
  }

  function TrimSpace(s: string): string {
    TrimRight(TrimLeft(s))
  }

  lemma {:induction false} TrimLeftDrops(w: string, s: string)
    requires Blank(w)
    ensures TrimLeft(w + s) == TrimLeft(s)
  {
    if w == "" {
      assert w + s == s;
    } else {
      assert w[0] in w;
      assert (w + s)[1..] == w[1..] + s;
      TrimLeftDrops(w[1..], s);
    }
  }

  lemma {:induction false} TrimRightDrops(s: string, w: string)
    requires Blank(w)
    ensures TrimRight(s + w) == TrimRight(s)
  {
    if w == "" {
      assert s + w == s;
    } else {
      assert w[|w| - 1] in w;
      assert (s + w)[..|s + w| - 1] == s + w[..|w| - 1];
      TrimRightDrops(s, w[..|w| - 1]);
    }
  }

  // TrimSpace finds the one trimmed middle of a string padded with white space
  lemma {:induction false} TrimSpaceOf(w1: string, m: string, w2: string)
    requires Blank(w1) && Blank(w2) && IsTrimmed(m)
    ensures TrimSpace(w1 + m + w2) == m
  {
    if m == "" {
      assert w1 + m + w2 == (w1 + w2) + "";
      TrimLeftDrops(w1 + w2, "");
    } else {
      assert w1 + m + w2 == w1 + (m + w2);
      TrimLeftDrops(w1, m + w2);
      TrimRightDrops(m, w2);
    }
  }

  lemma {:induction false} TrimLeftSplits(s: string) returns (w: string)
    ensures Blank(w) && s == w + TrimLeft(s)
    ensures TrimLeft(s) != "" ==> !IsSpace(TrimLeft(s)[0])
  {
    w := "";
    if s != "" && IsSpace(s[0]) {
      var w' := TrimLeftSplits(s[1..]);
      w := [s[0]] + w';
    }
  }

  lemma {:induction false} TrimRightSplits(s: string) returns (w: string)
    ensures Blank(w) && s == TrimRight(s) + w
    ensures TrimRight(s) != "" ==> !IsSpace(TrimRight(s)[|TrimRight(s)| - 1])
  {
    w := "";
    if s != "" && IsSpace(s[|s| - 1]) {
      var w' := TrimRightSplits(s[..|s| - 1]);
      w := w' + [s[|s| - 1]];
    }
  }

  lemma {:induction false} TrimSpaceSplits(s: string) returns (w1: string, w2: string)
    ensures Blank(w1) && Blank(w2) && s == w1 + TrimSpace(s) + w2 && IsTrimmed(TrimSpace(s))
  {
    hide Blank, IsSpace;
    w1 := TrimLeftSplits(s);
    w2 := TrimRightSplits(TrimLeft(s));
    assert TrimLeft(s) == TrimSpace(s) + w2;
    if TrimSpace(s) != "" {
      assert TrimSpace(s)[0] == TrimLeft(s)[0];
    }
  }

  // White space around a string is invisible to TrimSpace
  lemma {:induction false} TrimSpacePadding(w1: string, s: string, w2: string)
    requires Blank(w1) && Blank(w2)
    ensures TrimSpace(w1 + s + w2) == TrimSpace(s)
  {
    var a, b := TrimSpaceSplits(s);
    assert w1 + s + w2 == (w1 + a) + TrimSpace(s) + (b + w2);
    TrimSpaceOf(w1 + a, TrimSpace(s), b + w2);
  }

  lemma {:induction false} TrimSpaceBlank(s: string)
    ensures TrimSpace(s) == "" <==> Blank(s)
  {
    if Blank(s) {
      assert s == s + "" + "";
      TrimSpaceOf(s, "", "");
    } else {
      var w1, w2 := TrimSpaceSplits(s);
    }
  }

  predicate HasPrefix(s: string, p: string) {
    p <= s
  }

  function TrimPrefix(s: string, p: string): string {
    if p <= s then s[|p|..] else s
  }

  predicate HasSuffix(s: string, p: string) {
    |p| <= |s| && s[|s| - |p|..] == p
  }

  function TrimSuffix(s: string, p: string): string {
    if HasSuffix(s, p) then s[..|s| - |p|] else s
  }

  // One line of a file without its carriage return
  function StripCR(line: string): string {
    TrimSuffix(line, CR)
  }

  // strings.Split on a one-character separator
  function Split(s: string, sep: char): (parts: seq<string>)
    ensures parts != []
    ensures forall p <- parts :: sep !in p
  {
    if s == "" then [""]
    else
      var rest := Split(s[1..], sep);
      if s[0] == sep then [""] + rest else [[s[0]] + rest[0]] + rest[1..]
  }

  // strings.Join with a one-character separator
  function Join(parts: seq<string>, sep: char): string {
    if parts == [] then ""
    else if |parts| == 1 then parts[0]
    else parts[0] + [sep] + Join(parts[1..], sep)
  }

  lemma {:induction false} JoinSplit(s: string, sep: char)
    ensures Join(Split(s, sep), sep) == s
  {
    if s != "" {
      JoinSplit(s[1..], sep);
      var rest := Split(s[1..], sep);
      if s[0] == sep {
        assert ([""] + rest)[1..] == rest;
      } else {
        var parts := [[s[0]] + rest[0]] + rest[1..];
        assert parts[1..] == rest[1..];
        assert s == [s[0]] + s[1..];
      }
    }
  }

  lemma {:induction false} SplitOne(p: string, sep: char)
    requires sep !in p
    ensures Split(p, sep) == [p]
  {
    if p != "" {
      SplitOne(p[1..], sep);
      assert p == [p[0]] + p[1..];
    }
  }

  lemma {:induction false} SplitAt(p: string, sep: char, s: string)
    requires sep !in p
    ensures Split(p + [sep] + s, sep) == [p] + Split(s, sep)
  {
    var t := p + [sep] + s;
    if p == "" {
      assert t[1..] == s;
    } else {
      assert t[1..] == p[1..] + [sep] + s;
      SplitAt(p[1..], sep, s);
      assert p == [p[0]] + p[1..];
      assert ([p[1..]] + Split(s, sep))[1..] == Split(s, sep);
    }
  }

  // Lines, each ended by a newline
  function Unlines(lines: seq<string>): string {
    if lines == [] then "" else lines[0] + [LF] + Unlines(lines[1..])
  }

  lemma {:induction false} UnlinesSnoc(lines: seq<string>, line: string)
    ensures Unlines(lines + [line]) == Unlines(lines) + line + [LF]
  {
    if lines == [] {
      assert [line][1..] == [];
    } else {
      assert (lines + [line])[1..] == lines[1..] + [line];
      UnlinesSnoc(lines[1..], line);
    }
  }

  lemma {:induction false} SplitUnlines(lines: seq<string>, s: string)
    requires forall l <- lines :: LF !in l
    ensures Split(Unlines(lines) + s, LF) == lines + Split(s, LF)
  {
    if lines == [] {
      assert Unlines(lines) + s == s;
    } else {
      var l := lines[0];
      assert l in lines;
      assert Unlines(lines) + s == l + [LF] + (Unlines(lines[1..]) + s);
      calc {
        Split(Unlines(lines) + s, LF);
        { SplitAt(l, LF, Unlines(lines[1..]) + s); }
        [l] + Split(Unlines(lines[1..]) + s, LF);
        { SplitUnlines(lines[1..], s); }
        [l] + (lines[1..] + Split(s, LF));
        { assert [l] + lines[1..] == lines; }
        lines + Split(s, LF);
      }
    }
  }

  lemma {:induction false} UnlinesInjective(a: seq<string>, b: seq<string>)
    requires forall l <- a :: LF !in l
    requires forall l <- b :: LF !in l
    requires Unlines(a) == Unlines(b)
    ensures a == b
  {
    SplitUnlines(a, "");
    SplitUnlines(b, "");
    assert a == (a + Split("", LF))[..|a + Split("", LF)| - 1];
    assert b == (b + Split("", LF))[..|b + Split("", LF)| - 1];
  }
}
