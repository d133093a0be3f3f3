/**
Snippet extraction (cmd/sync/markers.go): marker lines, the one-pass extractor over a mutable
list of open regions, and what it extracts.
*/
module Markers {
  import opened Text
  import opened Dedent
  import opened Spans

  datatype Snippet = Snippet(topic: string, code: string)
  datatype Result<+T, +E> = Success(value: T) | Failure(error: E)

  predicate IsTopicChar(c: char) {
    'a' <= c <= 'z' || '0' <= c <= '9' || c == '-'
  }

  // ^[a-z0-9][a-z0-9-]*$
  predicate IsTopic(s: string) {
    s != "" && s[0] != '-' && forall c <- s :: IsTopicChar(c)
  }

  // strings.Cut at the first occurrence of a character; the rest is empty when there is none
  function Cut(s: string, sep: char): (string, string) {
    if s == "" then ("", "")
    else if s[0] == sep then ("", s[1..])
    else var (before, after) := Cut(s[1..], sep); ([s[0]] + before, after)
  }

  const KEYWORD := "snippet:"
  const START := KEYWORD + "start"
  const END := KEYWORD + "end"

  // The text of a comment line after the comment token, or None when the line is no comment
  function CommentOf(line: string, prefix: string): Option<string> {
    var trimmed := TrimSpace(line);
    if prefix <= trimmed then Some(TrimSpace(trimmed[|prefix|..])) else None
  }

  function ParseComment(comment: string): Marker {
    if !(KEYWORD <= comment) then Content
    else
      var (verb, rest) := Cut(comment, ' ');
      var arg := TrimSpace(rest);
      if verb == START then
        if arg == "" then Malformed(NeedsTopic)
        else if !IsTopic(arg) then Malformed(InvalidTopic(arg))
        else Start(arg)
      else if verb == END then
        if arg != "" && !IsTopic(arg) then Malformed(InvalidTopic(arg))
        else End(arg)
      else Malformed(UnknownMarker(verb))
  }

  function ParseMarker(line: string, prefix: string): Marker {
    match CommentOf(line, prefix)
    case None => Content
    case Some(comment) => ParseComment(comment)
  }

  // The lines of a file, without their carriage returns
  function Lines(source: string): (lines: seq<string>)
    ensures |lines| == |Split(source, LF)|
    ensures forall i :: 0 <= i < |lines| ==> lines[i] == StripCR(Split(source, LF)[i])
  {
    var raws := Split(source, LF);
    seq(|raws|, i requires 0 <= i < |raws| => StripCR(raws[i]))
  }

  function Marks(lines: seq<string>, prefix: string): (ms: seq<Marker>)
    ensures |ms| == |lines|
    ensures forall i :: 0 <= i < |ms| ==> ms[i] == ParseMarker(lines[i], prefix)
  {
    seq(|lines|, i requires 0 <= i < |lines| => ParseMarker(lines[i], prefix))
  }

  // The non-marker lines strictly between two line numbers
  function ContentBetween(lines: seq<string>, ms: seq<Marker>, start: nat, end: nat): seq<string>
    requires |ms| == |lines| && end <= |lines|
  {
    if end <= start + 1 then []
    else
      ContentBetween(lines, ms, start, end - 1) + (if ms[end - 1].Content? then [lines[end - 1]] else [])
  }

  function SnippetOf(lines: seq<string>, ms: seq<Marker>, span: Span): Snippet
    requires |ms| == |lines| && span.end <= |lines|
  {
    Snippet(span.topic, Dedented(ContentBetween(lines, ms, span.start, span.end)))
  }

  predicate InBounds(spans: seq<Span>, n: nat) {
    forall c <- spans :: c.end < n
  }

  function Snippets(lines: seq<string>, ms: seq<Marker>, spans: seq<Span>): (out: seq<Snippet>)
    requires |ms| == |lines| && InBounds(spans, |lines|)
    ensures |out| == |spans|
    ensures forall k :: 0 <= k < |spans| ==> out[k] == SnippetOf(lines, ms, spans[k])
  {
    seq(|spans|, k requires 0 <= k < |spans| => assert spans[k] in spans; SnippetOf(lines, ms, spans[k]))
  }

  // ---------- The extractor ----------

  class Region {
    const topic: string
    var lines: seq<string>

    constructor (topic: string)
      ensures this.topic == topic && lines == []
    {
      this.topic := topic;
      lines := [];
    }
  }

  // The open list on the heap holds, for every pending region, its content lines so far.
  ghost predicate Holds(open: seq<Region>, pending: seq<Pending>, lines: seq<string>, ms: seq<Marker>, i: nat)
    requires |ms| == |lines| && i <= |lines|
    reads open
  {
    && |open| == |pending|
    && (forall j, k :: 0 <= j < k < |open| ==> open[j] != open[k])
    && (forall j :: 0 <= j < |open| ==> open[j].topic == pending[j].topic)
    && (forall j :: 0 <= j < |open| ==> open[j].lines == ContentBetween(lines, ms, pending[j].start, i))
  }

  ghost predicate Emitted(out: seq<Snippet>, spans: seq<Span>, lines: seq<string>, ms: seq<Marker>)
    requires |ms| == |lines|
  {
    InBounds(spans, |lines|) && out == Snippets(lines, ms, spans)
  }

  lemma {:induction false} HoldsNext(open: seq<Region>, pending: seq<Pending>, lines: seq<string>, ms: seq<Marker>,
                                     i: nat)
    requires |ms| == |lines| && i < |lines| && !ms[i].Content?
    requires Holds(open, pending, lines, ms, i)
    ensures Holds(open, pending, lines, ms, i + 1)
  {
  }

  lemma {:induction false} HoldsRemove(open: seq<Region>, pending: seq<Pending>, lines: seq<string>, ms: seq<Marker>,
                                       i: nat, j: nat)
    requires |ms| == |lines| && i <= |lines| && j < |open|
    requires Holds(open, pending, lines, ms, i)
    ensures Holds(RemoveAt(open, j), RemoveAt(pending, j), lines, ms, i)
    ensures forall k :: 0 <= k < |open| - 1 ==> RemoveAt(open, j)[k] in open
  {
  }

  lemma {:induction false} EmittedNext(out: seq<Snippet>, spans: seq<Span>, lines: seq<string>, ms: seq<Marker>,
                                       c: Span)
    requires |ms| == |lines| && c.end < |lines|
    requires Emitted(out, spans, lines, ms)
    ensures Emitted(out + [SnippetOf(lines, ms, c)], spans + [c], lines, ms)
  {
  }

  method AppendLine(open: seq<Region>, line: string,
                    ghost pending: seq<Pending>, ghost lines: seq<string>, ghost ms: seq<Marker>, ghost i: nat)
    requires |ms| == |lines| && i < |lines| && ms[i].Content? && lines[i] == line
    requires Holds(open, pending, lines, ms, i) && forall o <- pending :: o.start < i
    modifies open
    ensures Holds(open, pending, lines, ms, i + 1)
  {
    for j := 0 to |open|
      invariant forall k :: 0 <= k < j ==> open[k].lines == old(open[k].lines) + [line]
      invariant forall k :: j <= k < |open| ==> open[k].lines == old(open[k].lines)
    {
      open[j].lines := open[j].lines + [line];
    }
    forall j | 0 <= j < |open|
      ensures open[j].lines == ContentBetween(lines, ms, pending[j].start, i + 1)
    {
      assert pending[j] in pending;
    }
  }

  method OpenRegion(open: seq<Region>, topic: string,
                    ghost pending: seq<Pending>, ghost lines: seq<string>, ghost ms: seq<Marker>, ghost i: nat)
    returns (open': seq<Region>)
    requires |ms| == |lines| && i < |lines| && !ms[i].Content?
    requires Holds(open, pending, lines, ms, i)
    ensures Holds(open', pending + [Pending(topic, i)], lines, ms, i + 1)
    ensures forall j :: 0 <= j < |open'| ==> open'[j] in open || fresh(open'[j])
  {
    HoldsNext(open, pending, lines, ms, i);
    var region := new Region(topic);
    open' := open + [region];
  }

  method CloseRegion(open: seq<Region>, idx: nat, out: seq<Snippet>,
                     ghost st: ScanState, ghost lines: seq<string>, ghost ms: seq<Marker>, ghost i: nat)
    returns (open': seq<Region>, out': seq<Snippet>)
    requires |ms| == |lines| && i < |lines| && !ms[i].Content? && idx < |open|
    requires st.Scanning? && Holds(open, st.open, lines, ms, i) && Emitted(out, st.closed, lines, ms)
    ensures Holds(open', RemoveAt(st.open, idx), lines, ms, i + 1)
    ensures forall j :: 0 <= j < |open'| ==> open'[j] in open
    ensures Emitted(out', st.closed + [Span(st.open[idx].topic, st.open[idx].start, i)], lines, ms)
  {
    HoldsRemove(open, st.open, lines, ms, i, idx);
    HoldsNext(RemoveAt(open, idx), RemoveAt(st.open, idx), lines, ms, i);
    EmittedNext(out, st.closed, lines, ms, Span(st.open[idx].topic, st.open[idx].start, i));
    var region := open[idx];
    open' := RemoveAt(open, idx);
    var code := DedentRegion(region.lines);
    out' := out + [Snippet(region.topic, code)];
  }

  method FindOpen(open: seq<Region>, topic: string, ghost pending: seq<Pending>) returns (idx: int)
    requires |open| == |pending| && forall j :: 0 <= j < |open| ==> open[j].topic == pending[j].topic
    ensures idx == ClosedBy(pending, topic)
  {
    idx := |open| - 1;
    if topic != "" {
      while idx >= 0 && open[idx].topic != topic
        invariant -1 <= idx < |open|
        invariant forall k :: idx < k < |open| ==> pending[k].topic != topic
      {
        idx := idx - 1;
      }
    }
  }

  lemma {:induction false} PendingBefore(ms: seq<Marker>, i: nat)
    requires i <= |ms| && Scan(ms[..i]).Scanning?
    ensures forall o <- Scan(ms[..i]).open :: o.start < i
  {
    ScanKeepsInv(ms[..i]);
  }

  lemma {:induction false} ScanInBounds(ms: seq<Marker>)
    requires Scan(ms).Scanning?
    ensures InBounds(Scan(ms).closed, |ms|)
  {
    ScanKeepsInv(ms);
    forall c | c in Scan(ms).closed
      ensures c.end < |ms|
    {
      assert IsSpanOf(ms, c);
    }
  }

  // What extraction returns, in terms of the marked regions
  function Extract(source: string, prefix: string): (r: Result<seq<Snippet>, ExtractError>)
  {
    var lines := Lines(source);
    var ms := Marks(lines, prefix);
    match Scan(ms)
    case Failed(error) => Failure(error)
    case Scanning(open, closed, _) =>
      if open != [] then Failure(NeverClosed(open[|open| - 1].topic))
      else
        ScanInBounds(ms);
        Success(Snippets(lines, ms, closed))
  }

  lemma {:induction false} ScanFails(ms: seq<Marker>, i: nat)
    requires i < |ms| && Step(Scan(ms[..i]), i, ms[i]).Failed?
    ensures Scan(ms) == Step(Scan(ms[..i]), i, ms[i])
  {
    ScanSnoc(ms, i);
    FailedStays(ms, i + 1);
  }

  method ExtractSnippets(source: string, prefix: string) returns (r: Result<seq<Snippet>, ExtractError>)
    ensures r == Extract(source, prefix)
  {
    r := ExtractLines(Split(source, LF), prefix, Lines(source), Marks(Lines(source), prefix));
  }

  method ExtractLines(raws: seq<string>, prefix: string, ghost lines: seq<string>, ghost ms: seq<Marker>)
    returns (r: Result<seq<Snippet>, ExtractError>)
    requires |ms| == |lines| == |raws|
    requires forall i :: 0 <= i < |raws| ==> lines[i] == StripCR(raws[i]) && ms[i] == ParseMarker(lines[i], prefix)
    ensures Scan(ms).Failed? ==> r == Failure(Scan(ms).error)
    ensures Scan(ms).Scanning? && Scan(ms).open != [] ==>
      r == Failure(NeverClosed(Scan(ms).open[|Scan(ms).open| - 1].topic))
    ensures Scan(ms).Scanning? && Scan(ms).open == [] ==> r.Success? && Emitted(r.value, Scan(ms).closed, lines, ms)
  {
    hide ParseMarker, StripCR;
    var out: seq<Snippet> := [];
    var open: seq<Region> := [];
    var seen: set<string> := {};
    ghost var st := Scan([]);

    for i := 0 to |raws|
      invariant st == Scan(ms[..i]) && st.Scanning?
      invariant seen == st.seen
      invariant forall j :: 0 <= j < |open| ==> fresh(open[j])
      invariant Holds(open, st.open, lines, ms, i)
      invariant Emitted(out, st.closed, lines, ms)
    {
      var line := StripCR(raws[i]);
      var marker := ParseMarker(line, prefix);
      assert marker == ms[i];
      ScanSnoc(ms, i);
      match marker {
        case Malformed(problem) =>
          ScanFails(ms, i);
          return Failure(BadMarker(i + 1, problem));
        case Content =>
          PendingBefore(ms, i);
          AppendLine(open, line, st.open, lines, ms, i);
        case Start(topic) =>
          if topic in seen {
            ScanFails(ms, i);
            return Failure(DuplicateTopic(i + 1, topic));
          }
          seen := seen + {topic};
          open := OpenRegion(open, topic, st.open, lines, ms, i);
        case End(topic) =>
          var idx := FindOpen(open, topic, st.open);
          if idx < 0 {
            ScanFails(ms, i);
            return Failure(UnmatchedEnd(i + 1));
          }
          open, out := CloseRegion(open, idx, out, st, lines, ms, i);
      }
      st := Step(st, i, ms[i]);
    }
    assert ms[..|raws|] == ms;
    if |open| > 0 {
      return Failure(NeverClosed(open[|open| - 1].topic));
    }
    return Success(out);
  }

  // ---------- What extraction promises ----------

  // Extraction succeeds exactly when the marker lines denote regions, and then returns, in
  // closing order, each region's dedented content lines.
  lemma {:induction false} ExtractIsDeclarative(source: string, prefix: string, out: seq<Snippet>)
    ensures Extract(source, prefix) == Success(out) <==>
      exists spans :: Matches(Marks(Lines(source), prefix), spans) &&
        Emitted(out, spans, Lines(source), Marks(Lines(source), prefix))
  {
    var lines := Lines(source);
    var ms := Marks(lines, prefix);
    if Extract(source, prefix) == Success(out) {
      ScanIsSound(ms);
      ScanInBounds(ms);
      assert Emitted(out, Scan(ms).closed, lines, ms);
    }
    if spans :| Matches(ms, spans) && Emitted(out, spans, lines, ms) {
      ScanIsComplete(ms, spans);
    }
  }

  lemma {:induction false} ContentFrom(lines: seq<string>, ms: seq<Marker>, start: nat, end: nat, k: nat)
      returns (i: nat)
    requires |ms| == |lines| && end <= |lines| && k < |ContentBetween(lines, ms, start, end)|
    ensures start < i < end && ms[i].Content? && ContentBetween(lines, ms, start, end)[k] == lines[i]
  {
    if k < |ContentBetween(lines, ms, start, end - 1)| {
      i := ContentFrom(lines, ms, start, end - 1, k);
    } else {
      i := end - 1;
    }
  }

  lemma {:induction false} ContentSplits(lines: seq<string>, ms: seq<Marker>, a: nat, b: nat, c: nat)
    requires |ms| == |lines| && a < b <= c <= |lines|
    ensures ContentBetween(lines, ms, a, c) == ContentBetween(lines, ms, a, b) + ContentBetween(lines, ms, b - 1, c)
  {
    if b < c {
      ContentSplits(lines, ms, a, b, c - 1);
    }
  }

  // A nested region's content lines are one contiguous block of the outer region's.
  lemma {:induction false} NestedContent(lines: seq<string>, ms: seq<Marker>, outer: Span, inner: Span)
    returns (before: seq<string>, after: seq<string>)
    requires |ms| == |lines| && outer.end <= |lines|
    requires outer.start < inner.start < inner.end < outer.end
    ensures ContentBetween(lines, ms, outer.start, outer.end) ==
      before + ContentBetween(lines, ms, inner.start, inner.end) + after
  {
    hide ContentBetween;
    before := ContentBetween(lines, ms, outer.start, inner.start + 1);
    after := ContentBetween(lines, ms, inner.end - 1, outer.end);
    ContentSplits(lines, ms, outer.start, inner.start + 1, outer.end);
    ContentSplits(lines, ms, inner.start, inner.end, outer.end);
    var middle := ContentBetween(lines, ms, inner.start, inner.end);
    assert before + (middle + after) == before + middle + after;
  }
}
