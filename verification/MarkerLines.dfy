/**
How marker lines read (cmd/sync/markers.go, parseMarker), in terms of their text.
*/
module MarkerLines {
  import opened Text
  import opened Dedent
  import opened Spans
  import opened Markers

  // ---------- Comments ----------

  lemma {:induction false} CutFinds(a: string, sep: char, b: string)
    requires sep !in a
    ensures Cut(a + [sep] + b, sep) == (a, b)
    ensures Cut(a, sep) == (a, "")
  {
    if a == "" {
      assert a + [sep] + b == [sep] + b;
    } else {
      assert (a + [sep] + b)[1..] == a[1..] + [sep] + b;
      assert a == [a[0]] + a[1..];
      CutFinds(a[1..], sep, b);
    }
  }

  lemma {:induction false} CutSplits(s: string, sep: char)
    ensures var (before, after) := Cut(s, sep);
      sep !in before && (s == before + [sep] + after || (s == before && after == ""))
  {
    if s != "" && s[0] != sep {
      CutSplits(s[1..], sep);
      assert s == [s[0]] + s[1..];
    }
  }

  // The comment is the verb alone, or the verb, a space and the argument among white space.
  ghost predicate Says(comment: string, verb: string, arg: string) {
    (comment == verb && arg == "") || exists w1, w2 :: SaysPadded(comment, verb, w1, arg, w2)
  }

  ghost predicate SaysPadded(comment: string, verb: string, w1: string, arg: string, w2: string) {
    Blank(w1) && Blank(w2) && comment == verb + " " + (w1 + arg + w2)
  }

  lemma {:induction false} SaysIff(comment: string, verb: string, arg: string)
    requires ' ' !in verb && IsTrimmed(arg)
    ensures Says(comment, verb, arg) <==> Cut(comment, ' ').0 == verb && TrimSpace(Cut(comment, ' ').1) == arg
  {
    hide Blank, IsTrimmed, TrimSpace;
    var (before, after) := Cut(comment, ' ');
    CutSplits(comment, ' ');
    if before == verb && TrimSpace(after) == arg && comment != verb {
      var w1, w2 := TrimSpaceSplits(after);
      assert SaysPadded(comment, verb, w1, arg, w2);
    }
    if w1, w2 :| SaysPadded(comment, verb, w1, arg, w2) {
      CutFinds(verb, ' ', w1 + arg + w2);
      TrimSpaceOf(w1, arg, w2);
    } else if comment == verb && arg == "" {
      CutFinds(verb, ' ', "");
    }
    EmptyTrims();
  }

  lemma {:induction false} EmptyTrims()
    ensures TrimSpace("") == ""
  {
  }

  lemma {:induction false} TopicIsTrimmed(t: string)
    requires IsTopic(t)
    ensures IsTrimmed(t) && ' ' !in t && LF !in t && t[|t| - 1] != '\r'
  {
    assert t[0] in t && t[|t| - 1] in t;
  }

  // What each comment reads as: a start needs a topic, an end may have one, a comment without the
  // keyword is content, and every other comment is malformed in one of three ways.
  lemma {:induction false} CommentReads(comment: string, t: string)
    ensures ParseComment(comment) == Content <==> !("snippet:" <= comment)
    ensures ParseComment(comment) == Start(t) <==> IsTopic(t) && Says(comment, "snippet:start", t)
    ensures ParseComment(comment) == End(t) <==> (t == "" || IsTopic(t)) && Says(comment, "snippet:end", t)
    ensures ParseComment(comment) == Malformed(NeedsTopic) <==> Says(comment, "snippet:start", "")
    ensures ParseComment(comment) == Malformed(InvalidTopic(t)) <==>
      t != "" && IsTrimmed(t) && !IsTopic(t) && (Says(comment, "snippet:start", t) || Says(comment, "snippet:end", t))
    ensures ParseComment(comment) == Malformed(UnknownMarker(t)) <==>
      "snippet:" <= comment && IsFirstWord(comment, t) && t != "snippet:start" && t != "snippet:end"
  {
    assert START == "snippet:start" && END == "snippet:end";
    VerbsStart(comment, t);
    VerbsStart(comment, "");
    FirstWordIff(comment, t);
    hide Says, Cut, IsFirstWord;
    var (verb, rest) := Cut(comment, ' ');
    var arg := TrimSpace(rest);
    var w1, w2 := TrimSpaceSplits(rest);
    hide TrimSpace;
    SaysIff(comment, "snippet:start", arg);
    SaysIff(comment, "snippet:end", arg);
    SaysIff(comment, "snippet:start", "");
    if IsTopic(t) {
      TopicIsTrimmed(t);
    }
    if IsTrimmed(t) {
      SaysIff(comment, "snippet:start", t);
      SaysIff(comment, "snippet:end", t);
    }
  }

  ghost predicate IsFirstWord(comment: string, word: string) {
    ' ' !in word && (comment == word || exists rest :: comment == word + " " + rest)
  }

  lemma {:induction false} FirstWordIff(comment: string, word: string)
    ensures IsFirstWord(comment, word) <==> Cut(comment, ' ').0 == word
  {
    CutSplits(comment, ' ');
    if IsFirstWord(comment, word) {
      if comment == word {
        CutFinds(word, ' ', "");
      } else {
        var rest :| comment == word + " " + rest;
        CutFinds(word, ' ', rest);
      }
    }
  }

  // A comment that starts with a verb starts with the keyword.
  lemma {:induction false} VerbsStart(comment: string, t: string)
    ensures Says(comment, "snippet:start", t) || Says(comment, "snippet:end", t) ==> KEYWORD <= comment
  {
    assert "snippet:start" == KEYWORD + "start" && "snippet:end" == KEYWORD + "end";
  }

  // ---------- Lines ----------

  // A line-comment token
  predicate IsToken(prefix: string) {
    prefix != "" && IsTrimmed(prefix) && LF !in prefix
  }

  ghost predicate IsCommentLine(line: string, prefix: string, w1: string, w2: string, comment: string, w3: string) {
    Blank(w1) && Blank(w2) && Blank(w3) && line == w1 + (prefix + w2 + comment) + w3
  }

  lemma {:induction false} LineComment(line: string, prefix: string, w1: string, w2: string, comment: string,
                                       w3: string)
    requires IsToken(prefix) && IsTrimmed(comment) && IsCommentLine(line, prefix, w1, w2, comment, w3)
    ensures CommentOf(line, prefix) == Some(comment)
  {
    if comment == "" {
      assert line == w1 + prefix + (w2 + w3);
      TrimSpaceOf(w1, prefix, w2 + w3);
      assert prefix[|prefix|..] == "";
      EmptyTrims();
    } else {
      var middle := prefix + w2 + comment;
      assert middle[0] == prefix[0] && middle[|middle| - 1] == comment[|comment| - 1];
      TrimSpaceOf(w1, middle, w3);
      assert middle[|prefix|..] == w2 + comment + "";
      TrimSpaceOf(w2, comment, "");
    }
  }

  // The comment of a line is the trimmed text after the token, which only white space may precede.
  lemma {:induction false} CommentIs(line: string, prefix: string, comment: string)
    requires IsToken(prefix)
    ensures CommentOf(line, prefix) == Some(comment) <==>
      IsTrimmed(comment) && exists w1, w2, w3 :: IsCommentLine(line, prefix, w1, w2, comment, w3)
    ensures CommentOf(line, prefix) == None <==> !exists w, rest :: Blank(w) && line == w + (prefix + rest)
  {
    hide TrimSpace, Blank, IsTrimmed;
    var trimmed := TrimSpace(line);
    var w1, w3 := TrimSpaceSplits(line);
    if prefix <= trimmed {
      var rest := trimmed[|prefix|..];
      assert trimmed == prefix + rest && line == w1 + (prefix + (rest + w3));
      var w2, w4 := TrimSpaceSplits(rest);
      BlankAppend(w4, w3);
      assert line == w1 + (prefix + w2 + TrimSpace(rest)) + (w4 + w3);
      assert IsCommentLine(line, prefix, w1, w2, TrimSpace(rest), w4 + w3);
    }
    if w1', w2', w3' :| IsTrimmed(comment) && IsCommentLine(line, prefix, w1', w2', comment, w3') {
      LineComment(line, prefix, w1', w2', comment, w3');
    }
    if w, rest :| Blank(w) && line == w + (prefix + rest) {
      var w2, w4 := TrimSpaceSplits(rest);
      assert line == w + (prefix + w2 + TrimSpace(rest)) + w4;
      LineComment(line, prefix, w, w2, TrimSpace(rest), w4);
    }
  }

  lemma {:induction false} BlankAppend(a: string, b: string)
    requires Blank(a) && Blank(b)
    ensures Blank(a + b)
  {
  }

  // A start or end line written with a topic
  lemma {:induction false} WrittenLines(prefix: string, t: string)
    requires IsToken(prefix) && IsTopic(t)
    ensures ParseMarker(prefix + " snippet:start " + t, prefix) == Start(t)
    ensures ParseMarker(prefix + " snippet:end " + t, prefix) == End(t)
  {
    TopicIsTrimmed(t);
    assert "snippet:start"[0] == 's' && "snippet:end"[0] == 's';
    assert " snippet:start " == " " + "snippet:start" + " " && " snippet:end " == " " + "snippet:end" + " ";
    hide IsTopic, IsTrimmed, CommentOf, ParseComment, Says, IsToken;
    VerbLine(prefix, "snippet:start", t);
    VerbLine(prefix, "snippet:end", t);
    CommentReads("snippet:start" + " " + t, t);
    CommentReads("snippet:end" + " " + t, t);
  }

  lemma {:induction false} VerbLine(prefix: string, verb: string, t: string)
    requires IsToken(prefix) && t != "" && IsTrimmed(t) && verb != "" && !IsSpace(verb[0])
    ensures CommentOf(prefix + (" " + verb + " ") + t, prefix) == Some(verb + " " + t)
    ensures Says(verb + " " + t, verb, t)
  {
    var comment := verb + " " + t;
    assert comment[0] == verb[0] && comment[|comment| - 1] == t[|t| - 1];
    assert IsTrimmed(comment) && Blank("") && Blank(" ");
    hide IsTrimmed, Blank, IsToken, CommentOf;
    assert prefix + (" " + verb + " ") + t == "" + (prefix + " " + comment) + "";
    LineComment(prefix + (" " + verb + " ") + t, prefix, "", " ", comment, "");
    assert comment == verb + " " + ("" + t + "");
    assert SaysPadded(comment, verb, "", t, "");
  }

  // ---------- Two-line files ----------

  function TwoLines(prefix: string, a: string, b: string): string {
    (prefix + " snippet:start " + a) + [LF] + ((prefix + " snippet:end " + b) + [LF] + "")
  }

  lemma {:induction false} TwoLinesAre(prefix: string, a: string, b: string)
    requires IsToken(prefix) && IsTopic(a) && IsTopic(b)
    ensures Lines(TwoLines(prefix, a, b)) == [prefix + " snippet:start " + a, prefix + " snippet:end " + b, ""]
  {
    var first, second := prefix + " snippet:start " + a, prefix + " snippet:end " + b;
    TopicIsTrimmed(a);
    TopicIsTrimmed(b);
    SplitAt(first, LF, second + [LF] + "");
    SplitAt(second, LF, "");
    assert first[|first| - 1] == a[|a| - 1] && second[|second| - 1] == b[|b| - 1];
    assert Split(TwoLines(prefix, a, b), LF) == [first, second, ""];
  }

  lemma {:induction false} EmptyLine(prefix: string)
    requires IsToken(prefix)
    ensures ParseMarker("", prefix) == Content
  {
    EmptyTrims();
  }

  lemma {:induction false} ScanTwo(a: string, b: string)
    requires a != "" && b != ""
    ensures Scan([Start(a), End(b), Content]) ==
      if a == b then Scanning([], [Span(a, 0, 1)], {a}) else Failed(UnmatchedEnd(2))
  {
    hide Scan, LastIndexOf, RemoveAt;
    var ms := [Start(a), End(b), Content];
    ScanNothing(ms[..0]);
    ScanSnoc(ms, 0);
    assert [] + [Pending(a, 0)] == [Pending(a, 0)] && {} + {a} == {a};
    ScanSnoc(ms, 1);
    OnlyOpen(a, b);
    ScanSnoc(ms, 2);
    assert ms[..3] == ms && [] + [Span(a, 0, 1)] == [Span(a, 0, 1)];
  }

  lemma {:induction false} ScanNothing(ms: seq<Marker>)
    requires ms == []
    ensures Scan(ms) == Scanning([], [], {})
  {
  }

  lemma {:induction false} OnlyOpen(a: string, b: string)
    ensures LastIndexOf([Pending(a, 0)], b) == if a == b then 0 else -1
    ensures RemoveAt([Pending(a, 0)], 0) == []
  {
    assert [Pending(a, 0)][..0] == [];
  }

  // An end that names the open region closes it, and one that names another fails on its line.
  lemma {:induction false} NamedEnd(prefix: string, a: string, b: string)
    requires IsToken(prefix) && IsTopic(a) && IsTopic(b)
    ensures Extract(TwoLines(prefix, a, b), prefix) ==
      if a == b then Success([Snippet(a, "")]) else Failure(UnmatchedEnd(2))
  {
    hide IsTopic, ParseMarker, Scan;
    TwoLinesAre(prefix, a, b);
    WrittenLines(prefix, a);
    WrittenLines(prefix, b);
    EmptyLine(prefix);
    TopicIsNotEmpty(a);
    TopicIsNotEmpty(b);
    ScanTwo(a, b);
    var lines := Lines(TwoLines(prefix, a, b));
    var ms := Marks(lines, prefix);
    assert ms == [Start(a), End(b), Content];
    if a == b {
      NothingDedented();
      assert Snippets(lines, ms, [Span(a, 0, 1)]) == [Snippet(a, "")];
    }
  }

  lemma {:induction false} TopicIsNotEmpty(t: string)
    requires IsTopic(t)
    ensures t != ""
  {
  }

  lemma {:induction false} NothingDedented()
    ensures Dedented([]) == ""
  {
  }
}
