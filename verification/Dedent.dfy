/**
The indentation transform applied to every extracted region (cmd/sync/markers.go).
*/
module Dedent {
  import opened Text

  predicate IsIndentChar(c: char) {
    c == ' ' || c == '\t'
  }

  predicate IsIndentString(s: string) {
    forall c <- s :: IsIndentChar(c)
  }

  // The run of spaces and tabs a line starts with
  function LeadingIndent(line: string): string {
    if line != "" && IsIndentChar(line[0]) then [line[0]] + LeadingIndent(line[1..]) else ""
  }

  // p is an indentation that every non-blank line starts with
  predicate IsCommonIndent(p: string, lines: seq<string>) {
    && IsIndentString(p)
    && forall l <- lines :: Blank(l) || p <= l
  }

  predicate HasContent(lines: seq<string>) {
    exists l <- lines :: !Blank(l)
  }

  function CommonPrefix(a: string, b: string): string {
    if a != "" && b != "" && a[0] == b[0] then [a[0]] + CommonPrefix(a[1..], b[1..]) else ""
  }

  // What the fold over the lines has accumulated: None until the first non-blank line
  function Indent(lines: seq<string>): Option<string> {
    if lines == [] then None
    else
      var before, line := Indent(lines[..|lines| - 1]), lines[|lines| - 1];
      if Blank(line) then before
      else if before.None? then Some(LeadingIndent(line))
      else Some(CommonPrefix(before.value, LeadingIndent(line)))
  }

  function DropBlank(lines: seq<string>): seq<string> {
    if lines != [] && Blank(lines[0]) then DropBlank(lines[1..]) else lines
  }

  function DropBlankEnd(lines: seq<string>): seq<string> {
    if lines != [] && Blank(lines[|lines| - 1]) then DropBlankEnd(lines[..|lines| - 1]) else lines
  }

  function TrimBlank(lines: seq<string>): seq<string> {
    DropBlankEnd(DropBlank(lines))
  }

  function StripLine(line: string, indent: string): string {
    if Blank(line) then "" else TrimPrefix(line, indent)
  }

  function StripLines(lines: seq<string>, indent: string): (r: seq<string>)
  {
    seq(|lines|, i requires 0 <= i < |lines| => StripLine(lines[i], indent))
  }

  // The lines of the dedented region
  function DedentedLines(lines: seq<string>): seq<string> {
    var kept := TrimBlank(lines);
    match Indent(kept)
    case None => []
    case Some(indent) => StripLines(kept, indent)
  }

  function Dedented(lines: seq<string>): string {
    Unlines(DedentedLines(lines))
  }

  // ---------- Indentation ----------

  lemma {:induction false} CommonPrefixIsMeet(a: string, b: string, p: string)
    ensures p <= a && p <= b <==> p <= CommonPrefix(a, b)
  {
    if p != "" && a != "" && b != "" && a[0] == b[0] {
      CommonPrefixIsMeet(a[1..], b[1..], p[1..]);
      assert p <= a <==> p[0] == a[0] && p[1..] <= a[1..];
      assert p <= b <==> p[0] == b[0] && p[1..] <= b[1..];
      var c := CommonPrefix(a, b);
      assert p <= c <==> p[0] == c[0] && p[1..] <= c[1..];
    }
  }

  lemma {:induction false} LeadingIndentIsLargest(line: string, p: string)
    requires IsIndentString(p)
    ensures p <= line <==> p <= LeadingIndent(line)
  {
    if p != "" && line != "" && IsIndentChar(line[0]) {
      LeadingIndentIsLargest(line[1..], p[1..]);
      assert p <= line <==> p[0] == line[0] && p[1..] <= line[1..];
      var c := LeadingIndent(line);
      assert p <= c <==> p[0] == c[0] && p[1..] <= c[1..];
    } else if p != "" {
      assert p[0] in p;
    }
  }

  // The accumulated indentation is the greatest common one: spaces and tabs start all non-blank
  // lines exactly when they are a prefix of it, and it is made of spaces and tabs itself.
  lemma {:induction false} IndentIsGreatestCommon(lines: seq<string>, p: string)
    requires forall c <- p :: c == ' ' || c == '\t'
    ensures Indent(lines).Some? <==> exists l <- lines :: !Blank(l)
    ensures Indent(lines).Some? ==> ((forall l <- lines :: Blank(l) || p <= l) <==> p <= Indent(lines).value)
    ensures Indent(lines).Some? ==> forall c <- Indent(lines).value :: c == ' ' || c == '\t'
  {
    assert IsIndentString(p);
    IndentIsIndentString(lines);
    if lines != [] {
      var before, line := lines[..|lines| - 1], lines[|lines| - 1];
      assert lines == before + [line];
      IndentIsGreatestCommon(before, p);
      LeadingIndentIsLargest(line, p);
      if Indent(before).Some? {
        CommonPrefixIsMeet(Indent(before).value, LeadingIndent(line), p);
      }
      assert HasContent(lines) <==> HasContent(before) || !Blank(line);
      assert IsCommonIndent(p, lines) <==> IsCommonIndent(p, before) && (Blank(line) || p <= line);
    }
  }

  lemma {:induction false} PrefixOfLeadingIndent(line: string, p: string)
    requires p <= LeadingIndent(line)
    ensures IsIndentString(p)
  {
    if p != "" {
      PrefixOfLeadingIndent(line[1..], p[1..]);
      assert p == [p[0]] + p[1..];
    }
  }

  lemma {:induction false} IndentIsIndentString(lines: seq<string>)
    ensures Indent(lines).Some? ==> IsIndentString(Indent(lines).value)
  {
    if lines != [] {
      var before, line := lines[..|lines| - 1], lines[|lines| - 1];
      IndentIsIndentString(before);
      PrefixOfLeadingIndent(line, LeadingIndent(line));
      if Indent(before).Some? {
        var c := CommonPrefix(Indent(before).value, LeadingIndent(line));
        CommonPrefixIsMeet(Indent(before).value, LeadingIndent(line), c);
        PrefixOfLeadingIndent(line, c);
      }
    }
  }

  lemma {:induction false} IndentIsCommon(lines: seq<string>)
    requires Indent(lines).Some?
    ensures IsCommonIndent(Indent(lines).value, lines)
  {
    IndentIsIndentString(lines);
    IndentIsGreatestCommon(lines, Indent(lines).value);
  }

  // ---------- Surrounding blank lines ----------

  ghost predicate IsFrame(lines: seq<string>, a: nat, b: nat) {
    && a <= b <= |lines|
    && (forall i :: 0 <= i < a ==> Blank(lines[i]))
    && (forall i :: b <= i < |lines| ==> Blank(lines[i]))
    && (a < b ==> !Blank(lines[a]) && !Blank(lines[b - 1]))
  }

  lemma {:induction false} DropBlankIs(lines: seq<string>, a: nat)
    requires a <= |lines|
    requires forall i :: 0 <= i < a ==> Blank(lines[i])
    ensures DropBlank(lines) == DropBlank(lines[a..])
  {
    if a == 0 {
      assert lines[a..] == lines;
    } else {
      DropBlankIs(lines[1..], a - 1);
      assert lines[1..][a - 1..] == lines[a..];
    }
  }

  lemma {:induction false} DropBlankEndIs(lines: seq<string>, b: nat)
    requires b <= |lines|
    requires forall i :: b <= i < |lines| ==> Blank(lines[i])
    ensures DropBlankEnd(lines) == DropBlankEnd(lines[..b])
    decreases |lines|
  {
    if b == |lines| {
      assert lines[..b] == lines;
    } else {
      DropBlankEndIs(lines[..|lines| - 1], b);
      assert lines[..|lines| - 1][..b] == lines[..b];
    }
  }

  lemma {:induction false} TrimBlankIs(lines: seq<string>, a: nat, b: nat)
    requires IsFrame(lines, a, b)
    ensures TrimBlank(lines) == lines[a..b]
  {
    if a == b {
      DropBlankIs(lines, |lines|);
    } else {
      DropBlankIs(lines, a);
      DropBlankEndIs(lines[a..], b - a);
      assert lines[a..][..b - a] == lines[a..b];
    }
  }

  lemma {:induction false} HasFrame(lines: seq<string>) returns (a: nat, b: nat)
    ensures IsFrame(lines, a, b)
  {
    if lines == [] {
      a, b := 0, 0;
    } else {
      var last := |lines| - 1;
      a, b := HasFrame(lines[..last]);
      if !Blank(lines[last]) {
        a, b := if a == b then last else a, |lines|;
        assert forall i :: 0 <= i < last ==> lines[i] == lines[..last][i];
      }
    }
  }

  lemma {:induction false} CommonIndentIff(lines: seq<string>, a: nat, b: nat, p: string)
    requires IsFrame(lines, a, b) && a < b
    ensures Indent(lines[a..b]).Some?
    ensures IsCommonIndent(p, lines) <==> p <= Indent(lines[a..b]).value
  {
    var kept := lines[a..b];
    assert kept[0] == lines[a] && kept[0] in kept;
    IndentIsGreatestCommon(kept, "");
    IndentIsIndentString(kept);
    if IsIndentString(p) {
      IndentIsGreatestCommon(kept, p);
    } else {
      var c :| c in p && !IsIndentChar(c);
    }
  }

  lemma {:induction false} IndentStart(indent: string)
    requires IsIndentString(indent)
    ensures indent == "" || " " <= indent || "\t" <= indent
  {
    assert indent == "" || indent[0] in indent;
  }

  // ---------- What dedent promises ----------

  // Every kept non-blank line is the shared indentation followed by its output line, blank lines
  // are emptied, nothing else is kept, and the output starts and ends with a non-blank line.
  lemma {:induction false} DedentShape(lines: seq<string>) returns (a: nat, b: nat, indent: string)
    ensures IsFrame(lines, a, b)
    ensures HasContent(lines) <==> a < b
    ensures |DedentedLines(lines)| == b - a
    ensures IsCommonIndent(indent, lines)
    ensures a < b ==> forall p :: IsCommonIndent(p, lines) <==> p <= indent
    ensures forall i {:trigger DedentedLines(lines)[i]} :: 0 <= i < b - a ==>
      if Blank(lines[a + i]) then DedentedLines(lines)[i] == ""
      else lines[a + i] == indent + DedentedLines(lines)[i] && !Blank(DedentedLines(lines)[i])
  {
    a, b := HasFrame(lines);
    TrimBlankIs(lines, a, b);
    var kept := lines[a..b];
    if a == b {
      indent := "";
      assert Indent(kept) == None;
    } else {
      CommonIndentIff(lines, a, b, "");
      IndentIsCommon(kept);
      indent := Indent(kept).value;
      forall p
        ensures IsCommonIndent(p, lines) <==> p <= indent
      {
        CommonIndentIff(lines, a, b, p);
      }
      forall i {:trigger DedentedLines(lines)[i]} | 0 <= i < b - a
        ensures if Blank(lines[a + i]) then DedentedLines(lines)[i] == ""
          else lines[a + i] == indent + DedentedLines(lines)[i] && !Blank(DedentedLines(lines)[i])
      {
        var l := kept[i];
        assert l in kept;
      }
    }
  }

  // The indentation removed was the longest: the output lines share none.
  lemma {:induction false} DedentIsTight(lines: seq<string>, p: string)
    requires HasContent(lines)
    ensures IsCommonIndent(p, DedentedLines(lines)) <==> p == ""
  {
    var a, b, indent := DedentShape(lines);
    var out := DedentedLines(lines);
    if IsCommonIndent(p, out) {
      forall k | 0 <= k < |lines| && !Blank(lines[k])
        ensures indent + p <= lines[k]
      {
        assert a <= k < b;
        var o := out[k - a];
        assert lines[a + (k - a)] == indent + o && o in out;
      }
      assert IsCommonIndent(indent + p, lines);
      assert |indent + p| <= |indent|;
    }
  }

  // Lines dedent has nothing to do to: tight, framed by non-blank lines, blank ones empty.
  predicate IsDedented(lines: seq<string>) {
    && (lines != [] ==> !Blank(lines[0]) && !Blank(lines[|lines| - 1]))
    && (forall l <- lines :: Blank(l) ==> l == "")
    && (HasContent(lines) ==> !IsCommonIndent(" ", lines) && !IsCommonIndent("\t", lines))
  }

  lemma {:induction false} DedentedIsDedented(lines: seq<string>)
    ensures IsDedented(DedentedLines(lines))
  {
    DedentedBlanksAreEmpty(lines);
    assert HasContent(DedentedLines(lines)) ==> DedentedLines(lines) != [];
    if HasContent(lines) {
      DedentIsTight(lines, " ");
      DedentIsTight(lines, "\t");
    }
  }

  lemma {:induction false} DedentedBlanksAreEmpty(lines: seq<string>)
    ensures forall l <- DedentedLines(lines) :: Blank(l) ==> l == ""
    ensures var out := DedentedLines(lines); out != [] ==> !Blank(out[0]) && !Blank(out[|out| - 1])
    ensures HasContent(lines) <==> DedentedLines(lines) != []
  {
    var a, b, _ := DedentShape(lines);
    var out := DedentedLines(lines);
    forall i | 0 <= i < |out|
      ensures Blank(out[i]) ==> out[i] == ""
      ensures Blank(out[i]) <==> Blank(lines[a + i])
    {
    }
    assert a < b ==> lines[a + (|out| - 1)] == lines[b - 1];
  }

  lemma {:induction false} DedentFixes(lines: seq<string>)
    requires IsDedented(lines)
    ensures DedentedLines(lines) == lines
  {
    TrimBlankIs(lines, 0, |lines|);
    assert lines[0..|lines|] == lines;
    if lines != [] {
      assert lines[0] in lines;
      IndentIsGreatestCommon(lines, "");
      IndentIsCommon(lines);
      var indent := Indent(lines).value;
      IndentStart(indent);
      IndentIsGreatestCommon(lines, " ");
      IndentIsGreatestCommon(lines, "\t");
      assert StripLines(lines, "") == lines by {
        forall i | 0 <= i < |lines|
          ensures StripLine(lines[i], "") == lines[i]
        {
          assert lines[i] in lines;
          assert lines[i][0..] == lines[i];
        }
      }
    }
  }

  // A trailing empty line, such as splitting ended text leaves, makes no difference.
  lemma {:induction false} TrailingBlank(lines: seq<string>)
    ensures DedentedLines(lines + [""]) == DedentedLines(lines)
  {
    var a, b := HasFrame(lines);
    TrimBlankIs(lines, a, b);
    assert IsFrame(lines + [""], a, b);
    TrimBlankIs(lines + [""], a, b);
    assert (lines + [""])[a..b] == lines[a..b];
  }

  lemma {:induction false} DedentedHasNoNewline(lines: seq<string>)
    requires forall l <- lines :: LF !in l
    ensures forall l <- DedentedLines(lines) :: LF !in l
  {
    var a, b, indent := DedentShape(lines);
    var out := DedentedLines(lines);
    forall l | l in out
      ensures LF !in l
    {
      var i :| 0 <= i < |out| && out[i] == l;
      assert lines[a + i] in lines;
    }
  }

  // Dedenting dedented code again, split back into lines, changes nothing.
  lemma {:induction false} DedentIdempotent(lines: seq<string>)
    requires forall l <- lines :: LF !in l
    ensures Dedented(Split(Dedented(lines), LF)) == Dedented(lines)
  {
    var out := DedentedLines(lines);
    DedentedHasNoNewline(lines);
    SplitUnlines(out, "");
    assert Unlines(out) + "" == Unlines(out);
    assert Split(Dedented(lines), LF) == out + [""];
    TrailingBlank(out);
    DedentedIsDedented(lines);
    DedentFixes(out);
  }

  // ---------- The loops ----------

  method CommonPrefixOf(a: string, b: string) returns (p: string)
    ensures p == CommonPrefix(a, b)
  {
    var n := if |a| <= |b| then |a| else |b|;
    for i := 0 to n
      invariant a[..i] == b[..i]
      invariant CommonPrefix(a, b) == a[..i] + CommonPrefix(a[i..], b[i..])
    {
      if a[i] != b[i] {
        return a[..i];
      }
      assert a[i..][1..] == a[i + 1..] && b[i..][1..] == b[i + 1..];
    }
    return a[..n];
  }

  method IndentOf(lines: seq<string>) returns (indent: string)
    ensures Indent(lines) == None ==> indent == ""
    ensures Indent(lines).Some? ==> indent == Indent(lines).value
  {
    indent := "";
    var first := true;
    for i := 0 to |lines|
      invariant first <==> Indent(lines[..i]) == None
      invariant indent == if first then "" else Indent(lines[..i]).value
    {
      var line := lines[i];
      assert lines[..i + 1][..i] == lines[..i];
      TrimSpaceBlank(line);
      if TrimSpace(line) == "" {
        continue;
      }
      var ws := LeadingIndent(line);
      if first {
        indent, first := ws, false;
        continue;
      }
      indent := CommonPrefixOf(indent, ws);
    }
    assert lines[..|lines|] == lines;
  }

  method DedentRegion(lines: seq<string>) returns (code: string)
    ensures code == Dedented(lines)
  {
    var start, end := 0, |lines|;
    while start < end && TrimSpace(lines[start]) == ""
      invariant start <= end
      invariant forall i :: 0 <= i < start ==> Blank(lines[i])
    {
      TrimSpaceBlank(lines[start]);
      start := start + 1;
    }
    while end > start && TrimSpace(lines[end - 1]) == ""
      invariant start <= end <= |lines|
      invariant forall i :: end <= i < |lines| ==> Blank(lines[i])
      invariant start < end ==> TrimSpace(lines[start]) != ""
    {
      TrimSpaceBlank(lines[end - 1]);
      end := end - 1;
    }
    if start < end {
      TrimSpaceBlank(lines[start]);
      TrimSpaceBlank(lines[end - 1]);
    }
    TrimBlankIs(lines, start, end);
    var kept := lines[start..end];
    if |kept| == 0 {
      return "";
    }
    assert kept[0] in kept;
    IndentIsGreatestCommon(kept, "");

    var indent := IndentOf(kept);
    code := WriteLines(kept, indent);
  }

  method WriteLines(lines: seq<string>, indent: string) returns (code: string)
    ensures code == Unlines(StripLines(lines, indent))
  {
    ghost var out := StripLines(lines, indent);
    code := "";
    for i := 0 to |lines|
      invariant code == Unlines(out[..i])
    {
      assert out[..i + 1] == out[..i] + [out[i]];
      UnlinesSnoc(out[..i], out[i]);
      TrimSpaceBlank(lines[i]);
      if TrimSpace(lines[i]) == "" {
        code := code + [LF];
        continue;
      }
      code := code + TrimPrefix(lines[i], indent) + [LF];
    }
    assert out[..|lines|] == out;
  }
}
