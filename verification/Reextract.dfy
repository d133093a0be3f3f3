/**
Extracted code survives extraction: wrapped in a fresh pair of markers it comes out again.
*/
module Reextract {
  import opened Text
  import opened Dedent
  import opened Spans
  import opened Markers
  import MarkerLines

  // A line-comment token that starts a line it is written at the start of
  predicate CanMark(prefix: string) {
    LF !in prefix && (prefix != "" ==> !IsSpace(prefix[0]))
  }

  function StartLine(prefix: string, topic: string): string {
    prefix + " " + START + " " + topic
  }

  function EndLine(prefix: string): string {
    prefix + " " + END
  }

  // A file holding just the code, marked as one region
  function Wrap(prefix: string, topic: string, code: string): string {
    StartLine(prefix, topic) + [LF] + code + EndLine(prefix) + [LF]
  }

  // ---------- The marker lines ----------

  lemma {:induction false} CommentFound(prefix: string, comment: string)
    requires CanMark(prefix) && comment != "" && IsTrimmed(comment)
    ensures CommentOf(prefix + " " + comment, prefix) == Some(comment)
  {
    var line := prefix + " " + comment;
    if prefix == "" {
      assert line == " " + comment + "";
      TrimSpaceOf(" ", comment, "");
      assert comment == "" + comment + "";
      TrimSpaceOf("", comment, "");
      assert comment[0..] == comment;
    } else {
      assert line == "" + line + "";
      TrimSpaceOf("", line, "");
      assert line[|prefix|..] == " " + comment + "";
      TrimSpaceOf(" ", comment, "");
    }
  }

  // How a comment made of a verb and an argument reads
  lemma {:induction false} ParseVerb(verb: string, arg: string)
    requires KEYWORD <= verb && ' ' !in verb && IsTopic(arg)
    ensures verb == START ==> ParseComment(verb + " " + arg) == Start(arg)
    ensures verb == END ==> ParseComment(verb) == End("")
    ensures IsTrimmed(arg)
  {
    assert arg[|arg| - 1] in arg && arg[0] in arg;
    MarkerLines.CutFinds(verb, ' ', arg);
    assert arg == "" + arg + "";
    TrimSpaceOf("", arg, "");
    assert KEYWORD <= verb + " " + arg;
  }

  lemma {:induction false} EndsWithoutCR(s: string, t: string)
    requires t != "" && t[|t| - 1] != '\r'
    ensures StripCR(s + t) == s + t
  {
    assert (s + t)[|s + t| - 1] == t[|t| - 1];
  }

  lemma {:induction false} StartLineParses(prefix: string, topic: string)
    requires CanMark(prefix) && IsTopic(topic)
    ensures ParseMarker(StartLine(prefix, topic), prefix) == Start(topic)
    ensures StripCR(StartLine(prefix, topic)) == StartLine(prefix, topic)
  {
    var comment := START + " " + topic;
    assert ' ' !in START;
    ParseVerb(START, topic);
    assert StartLine(prefix, topic) == prefix + " " + comment;
    assert comment[0] == 's' && comment[|comment| - 1] == topic[|topic| - 1];
    CommentFound(prefix, comment);
    assert topic[|topic| - 1] in topic;
    EndsWithoutCR(prefix + " " + START + " ", topic);
  }

  lemma {:induction false} EndLineParses(prefix: string)
    requires CanMark(prefix)
    ensures ParseMarker(EndLine(prefix), prefix) == End("")
    ensures StripCR(EndLine(prefix)) == EndLine(prefix)
  {
    assert ' ' !in END;
    ParseVerb(END, "a");
    CommentFound(prefix, END);
    EndsWithoutCR(prefix + " ", END);
  }

  // ---------- Content lines stay content ----------

  lemma {:induction false} StripCRKeepsTrim(line: string)
    ensures TrimSpace(StripCR(line)) == TrimSpace(line)
    ensures Blank(StripCR(line)) <==> Blank(line)
  {
    if HasSuffix(line, CR) {
      assert line == "" + StripCR(line) + CR;
      TrimSpacePadding("", StripCR(line), CR);
    }
    TrimSpaceBlank(line);
    TrimSpaceBlank(StripCR(line));
  }

  // Stripping indentation never changes how a line reads as a marker.
  lemma {:induction false} DedentedLinesAreContent(lines: seq<string>, prefix: string)
    requires forall l <- lines :: ParseMarker(l, prefix) == Content
    ensures forall l <- DedentedLines(lines) :: ParseMarker(l, prefix) == Content
  {
    var a, b, indent := DedentShape(lines);
    var out := DedentedLines(lines);
    forall l | l in out
      ensures ParseMarker(l, prefix) == Content
    {
      var i :| 0 <= i < |out| && out[i] == l;
      var was := lines[a + i];
      assert was in lines;
      if Blank(was) {
        TrimSpaceBlank(was);
      } else {
        assert Blank(indent) by {
          assert forall c <- indent :: IsIndentChar(c);
        }
        assert was == indent + l + "";
        TrimSpacePadding(indent, l, "");
      }
    }
  }

  lemma {:induction false} ContentLines(source: string, prefix: string, span: Span)
    requires span.end <= |Lines(source)|
    ensures forall l <- ContentBetween(Lines(source), Marks(Lines(source), prefix), span.start, span.end) ::
      LF !in l && ParseMarker(l, prefix) == Content
  {
    var lines := Lines(source);
    var ms := Marks(lines, prefix);
    var content := ContentBetween(lines, ms, span.start, span.end);
    forall l | l in content
      ensures LF !in l && ParseMarker(l, prefix) == Content
    {
      var k :| 0 <= k < |content| && content[k] == l;
      var i := ContentFrom(lines, ms, span.start, span.end, k);
      assert Split(source, LF)[i] in Split(source, LF);
    }
  }

  // Extracted code is made of whole lines, already dedented, and no marker line is among them.
  lemma {:induction false} CodeLines(source: string, prefix: string, out: seq<Snippet>, k: nat)
      returns (lines: seq<string>)
    requires Extract(source, prefix) == Success(out) && k < |out|
    ensures out[k].code == Unlines(lines) && IsDedented(lines)
    ensures forall l <- lines :: LF !in l && ParseMarker(l, prefix) == Content
  {
    var ms := Marks(Lines(source), prefix);
    ScanInBounds(ms);
    var span := Scan(ms).closed[k];
    assert span in Scan(ms).closed;
    ContentLines(source, prefix, span);
    var content := ContentBetween(Lines(source), ms, span.start, span.end);
    lines := DedentedLines(content);
    DedentedIsDedented(content);
    DedentedHasNoNewline(content);
    DedentedLinesAreContent(content, prefix);
  }

  // ---------- Extracting the wrapped code ----------

  function StripAll(lines: seq<string>): (r: seq<string>)
  {
    seq(|lines|, i requires 0 <= i < |lines| => StripCR(lines[i]))
  }

  lemma {:induction false} StripAllDedented(lines: seq<string>)
    requires IsDedented(lines)
    ensures IsDedented(StripAll(lines))
  {
    var s := StripAll(lines);
    forall i | 0 <= i < |lines|
      ensures Blank(s[i]) <==> Blank(lines[i])
      ensures Blank(s[i]) ==> s[i] == ""
      ensures s[i] in s && lines[i] in lines
      ensures s[i] <= lines[i]
    {
      assert lines[i] in lines;
      StripCRKeepsTrim(lines[i]);
    }
    forall p | IsCommonIndent(p, s)
      ensures IsCommonIndent(p, lines)
    {
      forall l | l in lines
        ensures Blank(l) || p <= l
      {
        var i :| 0 <= i < |lines| && lines[i] == l;
        assert Blank(s[i]) || p <= s[i];
      }
    }
  }

  lemma {:induction false} AllContent(lines: seq<string>, ms: seq<Marker>, end: nat)
    requires |ms| == |lines| && 1 <= end <= |lines|
    requires forall i :: 1 <= i < end ==> ms[i].Content?
    ensures ContentBetween(lines, ms, 0, end) == lines[1..end]
  {
    if end > 1 {
      AllContent(lines, ms, end - 1);
    }
  }

  // The lines of a file wrapping some code
  ghost predicate IsWrapped(all: seq<string>, first: string, last: string, lines: seq<string>) {
    && |all| == |lines| + 3
    && all[0] == first
    && (forall i :: 0 <= i < |lines| ==> all[i + 1] == StripCR(lines[i]))
    && all[|lines| + 1] == last
    && all[|lines| + 2] == ""
  }

  lemma {:induction false} WrappedSplits(s: string, lines: seq<string>, e: string)
    requires LF !in s && LF !in e && StripCR(s) == s && StripCR(e) == e
    requires forall l <- lines :: LF !in l
    ensures IsWrapped(Lines(s + [LF] + Unlines(lines) + e + [LF]), s, e, lines)
  {
    var source := s + [LF] + Unlines(lines) + e + [LF];
    calc {
      Split(source, LF);
      { assert source == s + [LF] + (Unlines(lines) + (e + [LF] + "")); }
      Split(s + [LF] + (Unlines(lines) + (e + [LF] + "")), LF);
      { SplitAt(s, LF, Unlines(lines) + (e + [LF] + "")); }
      [s] + Split(Unlines(lines) + (e + [LF] + ""), LF);
      { SplitUnlines(lines, e + [LF] + ""); }
      [s] + (lines + Split(e + [LF] + "", LF));
      { SplitAt(e, LF, ""); }
      [s] + (lines + ([e] + [""]));
    }
    assert StripCR("") == "";
  }

  lemma {:induction false} NoNewlineInMarkers(prefix: string, topic: string)
    requires CanMark(prefix) && IsTopic(topic)
    ensures LF !in StartLine(prefix, topic) && LF !in EndLine(prefix)
  {
  }

  lemma {:induction false} WrappedLines(prefix: string, topic: string, lines: seq<string>)
    requires CanMark(prefix) && IsTopic(topic)
    requires forall l <- lines :: LF !in l
    ensures IsWrapped(Lines(Wrap(prefix, topic, Unlines(lines))), StartLine(prefix, topic), EndLine(prefix), lines)
  {
    NoNewlineInMarkers(prefix, topic);
    StartLineParses(prefix, topic);
    EndLineParses(prefix);
    WrappedSplits(StartLine(prefix, topic), lines, EndLine(prefix));
  }

  lemma {:induction false} EmptyIsContent(prefix: string)
    requires CanMark(prefix)
    ensures ParseMarker("", prefix) == Content
  {
  }

  lemma {:induction false} WrappedLine(all: seq<string>, first: string, last: string, lines: seq<string>, i: nat)
    requires IsWrapped(all, first, last, lines) && 1 <= i < |all| && i != |lines| + 1
    ensures all[i] == if i < |lines| + 1 then StripCR(lines[i - 1]) else ""
  {
    assert i < |lines| + 1 ==> all[(i - 1) + 1] == StripCR(lines[i - 1]);
  }

  lemma {:induction false} WrappedMarks(all: seq<string>, prefix: string, topic: string, lines: seq<string>)
    requires CanMark(prefix) && IsTopic(topic) && IsWrapped(all, StartLine(prefix, topic), EndLine(prefix), lines)
    requires forall l <- lines :: ParseMarker(l, prefix) == Content
    ensures var ms := Marks(all, prefix);
      && ms[0] == Start(topic) && ms[|lines| + 1] == End("")
      && forall i :: 1 <= i < |ms| && i != |lines| + 1 ==> ms[i] == Content
  {
    EmptyIsContent(prefix);
    StartLineParses(prefix, topic);
    EndLineParses(prefix);
    assert all[0] == StartLine(prefix, topic) && all[|lines| + 1] == EndLine(prefix) && |all| == |lines| + 3;
    hide ParseMarker, CanMark, IsTopic, StartLine, EndLine, StripCR, IsWrapped;
    forall i | 1 <= i < |lines| + 3 && i != |lines| + 1
      ensures ParseMarker(all[i], prefix) == Content
    {
      WrappedLine(all, StartLine(prefix, topic), EndLine(prefix), lines, i);
      if i < |lines| + 1 {
        StrippedIsContent(lines, i - 1, prefix);
      }
    }
  }

  lemma {:induction false} StrippedIsContent(lines: seq<string>, i: nat, prefix: string)
    requires forall l <- lines :: ParseMarker(l, prefix) == Content
    requires i < |lines|
    ensures ParseMarker(StripCR(lines[i]), prefix) == Content
  {
    assert lines[i] in lines;
    StripCRKeepsTrim(lines[i]);
  }

  lemma {:induction false} ExtractWrapped(prefix: string, topic: string, lines: seq<string>)
    requires CanMark(prefix) && IsTopic(topic) && IsDedented(lines)
    requires forall l <- lines :: LF !in l && ParseMarker(l, prefix) == Content
    ensures Extract(Wrap(prefix, topic, Unlines(lines)), prefix) == Success([Snippet(topic, Unlines(StripAll(lines)))])
  {
    hide ParseMarker, CanMark, IsTopic, StripCR, Wrap, Unlines, IsDedented;
    WrappedLines(prefix, topic, lines);
    var all := Lines(Wrap(prefix, topic, Unlines(lines)));
    WrappedMarks(all, prefix, topic, lines);
    var ms := Marks(all, prefix);
    var span := Span(topic, 0, |lines| + 1);
    OneRegion(ms, span);
    AllContent(all, ms, span.end);
    assert all[1..span.end] == StripAll(lines);
    StripAllDedented(lines);
    DedentFixes(StripAll(lines));
    ScanInBounds(ms);
    assert Snippets(all, ms, [span]) == [SnippetOf(all, ms, span)];
  }

  lemma {:induction false} OneRegion(ms: seq<Marker>, span: Span)
    requires span.start == 0 < span.end < |ms|
    requires ms[0] == Start(span.topic) && ms[span.end] == End("")
    requires forall i :: 1 <= i < |ms| && i != span.end ==> ms[i] == Content
    ensures Scan(ms).Scanning? && Scan(ms).open == [] && Scan(ms).closed == [span]
  {
    var spans := [span];
    assert Matches(ms, spans) by {
      assert span in spans;
      assert IsSpanOf(ms, span);
      assert forall c <- spans :: c == span;
      assert StartsAt(spans, 0) && EndsAt(spans, span.end);
    }
    ScanIsComplete(ms, spans);
  }

  lemma {:induction false} JoinIsUnlines(lines: seq<string>)
    ensures Join(lines + [""], LF) == Unlines(lines)
  {
    if lines != [] {
      assert (lines + [""])[1..] == lines[1..] + [""];
      JoinIsUnlines(lines[1..]);
    }
  }

  predicate NoTrailingCR(code: string) {
    forall l <- Split(code, LF) :: !HasSuffix(l, CR)
  }

  // Wrapping extracted code in a fresh marker pair and extracting again yields exactly one
  // snippet, of that topic, whose code is the same text with carriage returns before newlines
  // dropped; so it is the same code exactly when no line of it ends in a carriage return.
  lemma {:induction false} ReExtraction(source: string, prefix: string, out: seq<Snippet>, k: nat, topic: string)
    requires Extract(source, prefix) == Success(out) && k < |out|
    requires CanMark(prefix) && IsTopic(topic)
    ensures Extract(Wrap(prefix, topic, out[k].code), prefix) == Success([Snippet(topic, Join(Lines(out[k].code), LF))])
    ensures Extract(Wrap(prefix, topic, out[k].code), prefix) == Success([Snippet(topic, out[k].code)]) <==>
      NoTrailingCR(out[k].code)
  {
    var lines := CodeLines(source, prefix, out, k);
    ExtractWrapped(prefix, topic, lines);
    CodeWithoutCR(lines);
  }

  lemma {:induction false} CodeWithoutCR(lines: seq<string>)
    requires forall l <- lines :: LF !in l
    ensures Join(Lines(Unlines(lines)), LF) == Unlines(StripAll(lines))
    ensures Unlines(StripAll(lines)) == Unlines(lines) <==> NoTrailingCR(Unlines(lines))
  {
    var code, s := Unlines(lines), StripAll(lines);
    SplitUnlines(lines, "");
    assert code + "" == code;
    assert Split(code, LF) == lines + [""];
    assert Lines(code) == s + [""];
    JoinIsUnlines(s);
    forall l | l in s
      ensures LF !in l
    {
      var i :| 0 <= i < |s| && s[i] == l;
      assert lines[i] in lines;
    }
    if Unlines(s) == code {
      UnlinesInjective(s, lines);
    }
    SameIffNoCR(lines);
  }

  lemma {:induction false} SameIffNoCR(lines: seq<string>)
    ensures (forall l <- lines + [""] :: !HasSuffix(l, CR)) <==> StripAll(lines) == lines
  {
  }
}
