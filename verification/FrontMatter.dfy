/**
The front matter block of a docs page (cmd/sync/frontmatter.go): an offset-driven scanner, and
the line structure it recognises.
*/
module FrontMatter {
  import opened Text

  datatype FrontMatter =
    | Parsed(meta: map<string, string>, body: string)
    | NeverClosed
    | NotKeyValue(lineNo: nat)

  const FENCE := "---"

  predicate IsKeyChar(c: char) {
    'A' <= c <= 'Z' || 'a' <= c <= 'z' || '0' <= c <= '9' || c == '_' || c == '-'
  }

  predicate IsKey(s: string) {
    s != "" && forall c <- s :: IsKeyChar(c)
  }

  function KeyLength(line: string): (n: nat)
    ensures n <= |line|
  {
    if line != "" && IsKeyChar(line[0]) then 1 + KeyLength(line[1..]) else 0
  }

  // ^([A-Za-z0-9_-]+):[ \t]*(.*)$ with the second group trimmed
  function KeyValue(line: string): Option<(string, string)> {
    var n := KeyLength(line);
    if 0 < n < |line| && line[n] == ':' then Some((line[..n], TrimSpace(line[n + 1..]))) else None
  }

  // What the lines from number k on mean, given the pairs read so far
  function ParseLines(lines: seq<string>, k: nat, meta: map<string, string>): FrontMatter
    decreases |lines| - k
  {
    if k >= |lines| then NeverClosed
    else
      var line := StripCR(lines[k]);
      if line == FENCE then Parsed(meta, Join(lines[k + 1..], LF))
      else if Blank(line) then ParseLines(lines, k + 1, meta)
      else match KeyValue(line)
        case None => NotKeyValue(k + 1)
        case Some((key, value)) => ParseLines(lines, k + 1, meta[key := value])
  }

  // A block is opened by a first line that is a fence and is ended by a newline.
  predicate IsOpened(lines: seq<string>) {
    |lines| > 1 && StripCR(lines[0]) == FENCE
  }

  function Parse(data: string): FrontMatter {
    var lines := Split(data, LF);
    if IsOpened(lines) then ParseLines(lines, 1, map[]) else Parsed(map[], data)
  }

  // ---------- The scanner ----------

  // bytes.IndexByte
  function IndexOf(s: string, c: char): (i: int)
    ensures -1 <= i < |s|
  {
    if s == "" then -1
    else if s[0] == c then 0
    else
      var i := IndexOf(s[1..], c);
      if i < 0 then -1 else i + 1
  }

  // The offset at which line number k starts; one past the end of the data after the last line
  function LineStart(lines: seq<string>, k: nat): nat
    requires k <= |lines|
  {
    if k == 0 then 0 else LineStart(lines, k - 1) + |lines[k - 1]| + 1
  }

  lemma {:induction false} DataFromLine(data: string, k: nat)
    requires k <= |Split(data, LF)|
    ensures var lines := Split(data, LF);
      if k < |lines| then LineStart(lines, k) <= |data| && data[LineStart(lines, k)..] == Join(lines[k..], LF)
      else LineStart(lines, k) == |data| + 1
  {
    var lines := Split(data, LF);
    if k == 0 {
      JoinSplit(data, LF);
      assert lines[0..] == lines;
    } else {
      DataFromLine(data, k - 1);
      var rest, at := lines[k - 1..], LineStart(lines, k - 1);
      assert rest[0] == lines[k - 1] && rest[1..] == lines[k..];
      assert k < |lines| ==> data[at..][|rest[0]| + 1..] == Join(lines[k..], LF);
    }
  }

  lemma {:induction false} IndexOfLine(line: string, rest: string)
    requires LF !in line
    ensures IndexOf(line, LF) == -1
    ensures IndexOf(line + [LF] + rest, LF) == |line|
  {
    if line != "" {
      assert line == [line[0]] + line[1..];
      assert (line + [LF] + rest)[1..] == line[1..] + [LF] + rest;
      IndexOfLine(line[1..], rest);
    }
  }

  lemma {:induction false} FirstLine(rest: seq<string>)
    requires rest != [] && LF !in rest[0]
    ensures rest[0] <= Join(rest, LF)
    ensures IndexOf(Join(rest, LF), LF) == if |rest| == 1 then -1 else |rest[0]|
  {
    IndexOfLine(rest[0], Join(rest[1..], LF));
  }

  // Scanning for a newline from the start of a line finds that line's end.
  lemma {:induction false} Advance(data: string, k: nat)
    requires k < |Split(data, LF)|
    ensures var lines := Split(data, LF);
      var at := LineStart(lines, k);
      && at <= |data| && lines[k] <= data[at..]
      && IndexOf(data[at..], LF) == (if k + 1 == |lines| then -1 else |lines[k]|)
      && (k + 1 == |lines| ==> at + |lines[k]| == |data|)
  {
    var lines := Split(data, LF);
    DataFromLine(data, k);
    assert lines[k] in lines;
    FirstLine(lines[k..]);
  }

  // What is left of the data after line number k
  lemma {:induction false} BodyAfter(data: string, k: nat)
    requires k < |Split(data, LF)|
    ensures var lines := Split(data, LF);
      var offset := LineStart(lines, k) + |lines[k]| + 1;
      offset <= |data| + 1 && data[if offset <= |data| then offset else |data|..] == Join(lines[k + 1..], LF)
  {
    DataFromLine(data, k + 1);
  }

  lemma {:induction false} OpenedIffPrefixed(data: string)
    ensures IsOpened(Split(data, LF)) <==> "---\n" <= data || "---\r\n" <= data
  {
    hide Split, StripCR;
    if "---\n" <= data {
      assert data == FENCE + [LF] + data[4..];
      PrefixOpens(FENCE, data[4..]);
    }
    if "---\r\n" <= data {
      assert data == (FENCE + CR) + [LF] + data[5..];
      PrefixOpens(FENCE + CR, data[5..]);
    }
    if IsOpened(Split(data, LF)) {
      FirstLineStarts(data);
    }
  }

  lemma {:induction false} PrefixOpens(fence: string, rest: string)
    requires fence == FENCE || fence == FENCE + CR
    ensures IsOpened(Split(fence + [LF] + rest, LF))
  {
    SplitAt(fence, LF, rest);
  }

  lemma {:induction false} FirstLineStarts(data: string)
    requires IsOpened(Split(data, LF))
    ensures FENCE + [LF] <= data || FENCE + CR + [LF] <= data
  {
    var lines := Split(data, LF);
    JoinSplit(data, LF);
    hide Split;
    assert data == lines[0] + [LF] + Join(lines[1..], LF);
    assert lines[0] == FENCE || lines[0] == FENCE + CR;
    assert data[..|lines[0]| + 1] == lines[0] + [LF];
  }

  // One turn of the scan: the line at the offset, and the offset after it
  method NextLine(data: string, offset: nat, ghost k: nat) returns (line: string, next: nat)
    requires k < |Split(data, LF)| && offset == LineStart(Split(data, LF), k)
    ensures line == Split(data, LF)[k] && next == LineStart(Split(data, LF), k + 1)
  {
    Advance(data, k);
    var end := IndexOf(data[offset..], LF);
    if end < 0 {
      end := |data| - offset;
    }
    line := data[offset..offset + end];
    next := offset + end + 1;
  }

  method ParseFrontMatter(data: string) returns (r: FrontMatter)
    ensures r == Parse(data)
  {
    OpenedIffPrefixed(data);
    if !HasPrefix(data, "---\n") && !HasPrefix(data, "---\r\n") {
      return Parsed(map[], data);
    }
    Advance(data, 0);
    assert data[0..] == data;
    var offset := IndexOf(data, LF) + 1;
    r := ScanBlock(data, offset);
  }

  lemma {:induction false} ParseStep(lines: seq<string>, k: nat, meta: map<string, string>)
    requires k < |lines|
    ensures var line := StripCR(lines[k]);
      ParseLines(lines, k, meta) ==
        if line == FENCE then Parsed(meta, Join(lines[k + 1..], LF))
        else if Blank(line) then ParseLines(lines, k + 1, meta)
        else match KeyValue(line)
          case None => NotKeyValue(k + 1)
          case Some((key, value)) => ParseLines(lines, k + 1, meta[key := value])
  {
    hide StripCR, Blank, KeyValue, Join;
  }

  method ScanBlock(data: string, start: nat) returns (r: FrontMatter)
    requires |Split(data, LF)| > 1 && start == LineStart(Split(data, LF), 1)
    ensures r == ParseLines(Split(data, LF), 1, map[])
  {
    hide Split, ParseLines, KeyValue, TrimSpace, Blank, Join, StripCR;
    ghost var lines := Split(data, LF);
    var meta: map<string, string> := map[];
    var offset := start;
    var lineNo := 2;
    while true
      invariant 2 <= lineNo <= |lines| + 1 && offset == LineStart(lines, lineNo - 1)
      invariant ParseLines(lines, lineNo - 1, meta) == ParseLines(lines, 1, map[])
      decreases |lines| + 1 - lineNo
    {
      DataFromLine(data, lineNo - 1);
      if offset >= |data| {
        NothingLeft(data, lineNo - 1, meta);
        return NeverClosed;
      }
      var raw;
      raw, offset := NextLine(data, offset, lineNo - 1);
      ParseStep(lines, lineNo - 1, meta);
      var line := StripCR(raw);
      if line == FENCE {
        BodyAfter(data, lineNo - 1);
        if offset > |data| {
          offset := |data|;
        }
        return Parsed(meta, data[offset..]);
      }
      TrimSpaceBlank(line);
      if TrimSpace(line) != "" {
        match KeyValue(line) {
          case None => return NotKeyValue(lineNo);
          case Some((key, value)) => meta := meta[key := value];
        }
      }
      lineNo := lineNo + 1;
    }
  }

  lemma {:induction false} NothingLeft(data: string, k: nat, meta: map<string, string>)
    requires k <= |Split(data, LF)| && LineStart(Split(data, LF), k) >= |data|
    ensures ParseLines(Split(data, LF), k, meta) == NeverClosed
  {
    var lines := Split(data, LF);
    if k < |lines| {
      DataFromLine(data, k);
      assert |lines[k..]| == 1;
      assert lines[k] == "";
    }
  }

  // ---------- What a block means ----------

  predicate IsFenceLine(line: string) {
    StripCR(line) == FENCE
  }

  predicate IsPairLine(line: string) {
    Blank(StripCR(line)) || KeyValue(StripCR(line)).Some?
  }

  // Lines a up to k are pairs and blanks, none a fence.
  predicate PairsBetween(lines: seq<string>, a: nat, k: nat) {
    a <= k <= |lines| && forall j :: a <= j < k ==> !IsFenceLine(lines[j]) && IsPairLine(lines[j])
  }

  // The pairs of the lines a up to k; a later pair replaces an earlier one of its key
  function MetaOf(lines: seq<string>, a: nat, k: nat): map<string, string>
    requires a <= k <= |lines|
  {
    if a == k then map[]
    else
      var before, line := MetaOf(lines, a, k - 1), StripCR(lines[k - 1]);
      if Blank(line) || KeyValue(line).None? then before
      else before[KeyValue(line).value.0 := KeyValue(line).value.1]
  }

  lemma {:induction false} ParsesAfterPairs(lines: seq<string>, a: nat, k: nat)
    requires PairsBetween(lines, a, k)
    ensures ParseLines(lines, a, map[]) == ParseLines(lines, k, MetaOf(lines, a, k))
  {
    if a < k {
      ParsesAfterPairs(lines, a, k - 1);
    }
  }

  lemma {:induction false} PairsEnd(lines: seq<string>, a: nat) returns (k: nat)
    requires a <= |lines|
    ensures PairsBetween(lines, a, k)
    ensures k < |lines| ==> IsFenceLine(lines[k]) || !IsPairLine(lines[k])
  {
    k := a;
    while k < |lines| && !IsFenceLine(lines[k]) && IsPairLine(lines[k])
      invariant PairsBetween(lines, a, k)
    {
      k := k + 1;
    }
  }

  // For every opened document: the block parses exactly when some later line is a fence with
  // only pairs and blanks before it; that line is the first fence, the body is all after it, and
  // the pairs are those before it. Otherwise the first line that is neither is the error, or
  // there is none and the block is never closed.
  lemma {:induction false} BlockMeaning(data: string, k: nat, meta: map<string, string>, body: string)
    requires IsOpened(Split(data, LF))
    ensures var lines := Split(data, LF);
      && (Parse(data).Parsed? <==> exists j | 1 <= j < |lines| :: PairsBetween(lines, 1, j) && IsFenceLine(lines[j]))
      && (1 <= k < |lines| && PairsBetween(lines, 1, k) && IsFenceLine(lines[k]) ==>
            Parse(data) == Parsed(MetaOf(lines, 1, k), Join(lines[k + 1..], LF)))
      && (Parse(data) == NotKeyValue(k + 1) <==>
            1 <= k < |lines| && PairsBetween(lines, 1, k) && !IsFenceLine(lines[k]) && !IsPairLine(lines[k]))
      && (Parse(data) == NeverClosed <==> PairsBetween(lines, 1, |lines|))
  {
    var lines := Split(data, LF);
    var e := PairsEnd(lines, 1);
    ParsesAfterPairs(lines, 1, e);
    forall j | 1 <= j < |lines| && PairsBetween(lines, 1, j) && (IsFenceLine(lines[j]) || !IsPairLine(lines[j]))
      ensures j == e
    {
    }
  }

  // A document that does not open with a fence line has no pairs and is its own body.
  lemma {:induction false} UnopenedIsBody(data: string)
    requires !("---\n" <= data) && !("---\r\n" <= data)
    ensures Parse(data) == Parsed(map[], data)
  {
    OpenedIffPrefixed(data);
  }

  // A key, a colon, and a value among white space
  ghost predicate IsPair(line: string, key: string, w1: string, value: string, w2: string) {
    Blank(w1) && Blank(w2) && line == key + ":" + (w1 + value + w2)
  }

  // A line is a pair exactly when it is a key of letters, digits, underscores and hyphens, a colon,
  // and the value among white space.
  lemma {:induction false} PairIff(line: string, key: string, value: string)
    ensures KeyValue(line) == Some((key, value)) <==>
      && key != "" && (forall c <- key :: 'A' <= c <= 'Z' || 'a' <= c <= 'z' || '0' <= c <= '9' || c == '_' || c == '-')
      && IsTrimmed(value) && exists w1, w2 :: IsPair(line, key, w1, value, w2)
  {
    hide TrimSpace, Blank, IsTrimmed;
    KeyLengthSplits(line);
    var n := KeyLength(line);
    if 0 < n < |line| && line[n] == ':' {
      var w1, w2 := TrimSpaceSplits(line[n + 1..]);
      assert line == line[..n] + ":" + line[n + 1..];
      assert IsPair(line, line[..n], w1, TrimSpace(line[n + 1..]), w2);
    }
    if w1, w2 :| IsTrimmed(value) && IsPair(line, key, w1, value, w2) && IsKey(key) {
      var rest := w1 + value + w2;
      assert line == key + (":" + rest);
      KeyLengthIs(key, ":" + rest);
      TrimSpaceOf(w1, value, w2);
      assert line[..|key|] == key && line[|key| + 1..] == rest;
    }
  }

  lemma {:induction false} KeyLengthSplits(line: string)
    ensures forall c <- line[..KeyLength(line)] :: IsKeyChar(c)
  {
    if line != "" && IsKeyChar(line[0]) {
      KeyLengthSplits(line[1..]);
      assert line[..KeyLength(line)] == [line[0]] + line[1..][..KeyLength(line[1..])];
    }
  }

  // The body is always a suffix of the document.
  lemma {:induction false} BodyIsSuffix(data: string)
    requires Parse(data).Parsed?
    ensures HasSuffix(data, Parse(data).body)
  {
    var lines := Split(data, LF);
    if IsOpened(lines) {
      var e := PairsEnd(lines, 1);
      ParsesAfterPairs(lines, 1, e);
      JoinSplit(data, LF);
      JoinDrop(lines, e + 1);
    }
  }

  lemma {:induction false} JoinDrop(lines: seq<string>, k: nat)
    requires k <= |lines|
    ensures HasSuffix(Join(lines, LF), Join(lines[k..], LF))
  {
    if k == 0 {
      assert lines[0..] == lines;
    } else {
      JoinDrop(lines[1..], k - 1);
      assert lines[1..][k - 1..] == lines[k..];
      if |lines| > 1 {
        var tail, end := Join(lines[1..], LF), Join(lines[k..], LF);
        var s := Join(lines, LF);
        assert s == lines[0] + [LF] + tail;
        assert s[|s| - |end|..] == tail[|tail| - |end|..];
      }
    }
  }

  // ---------- Round trip ----------

  predicate CanPrint(pair: (string, string)) {
    IsKey(pair.0) && LF !in pair.1 && IsTrimmed(pair.1)
  }

  function PairLine(pair: (string, string)): string {
    pair.0 + ": " + pair.1
  }

  function PairLines(pairs: seq<(string, string)>): (r: seq<string>)
  {
    seq(|pairs|, i requires 0 <= i < |pairs| => PairLine(pairs[i]))
  }

  // A printed block followed by a body
  function Print(pairs: seq<(string, string)>, body: string): string {
    Unlines([FENCE] + PairLines(pairs) + [FENCE]) + body
  }

  function LastValues(pairs: seq<(string, string)>): map<string, string> {
    if pairs == [] then map[]
    else var p := pairs[|pairs| - 1]; LastValues(pairs[..|pairs| - 1])[p.0 := p.1]
  }

  // The value of a key is that of the last pair with it.
  ghost predicate IsLastWins(pairs: seq<(string, string)>, meta: map<string, string>) {
    && (forall key :: key in meta <==> exists i :: 0 <= i < |pairs| && pairs[i].0 == key)
    && (forall i :: 0 <= i < |pairs| && (forall j :: i < j < |pairs| ==> pairs[j].0 != pairs[i].0) ==>
          pairs[i].0 in meta && meta[pairs[i].0] == pairs[i].1)
  }

  lemma {:induction false} KeyLengthIs(key: string, rest: string)
    requires forall c <- key :: IsKeyChar(c)
    requires rest != "" && !IsKeyChar(rest[0])
    ensures KeyLength(key + rest) == |key|
  {
    if key != "" {
      assert key[0] in key;
      assert (key + rest)[1..] == key[1..] + rest;
      KeyLengthIs(key[1..], rest);
    } else {
      assert key + rest == rest;
    }
  }

  lemma {:induction false} PairLineParses(pair: (string, string))
    requires CanPrint(pair)
    ensures LF !in PairLine(pair)
    ensures ReadsAs(PairLine(pair), pair)
  {
    var line := PairLine(pair);
    PairLineChars(pair);
    PairKeyValue(pair);
    hide KeyValue, PairLine, CanPrint;
    assert StripCR(line) == line;
    assert line[0] in line && !IsSpace(line[0]);
    assert line != FENCE;
  }

  lemma {:induction false} PairKeyValue(pair: (string, string))
    requires CanPrint(pair)
    ensures KeyValue(PairLine(pair)) == Some(pair)
  {
    var line := PairLine(pair);
    assert line == pair.0 + (": " + pair.1);
    KeyLengthIs(pair.0, ": " + pair.1);
    assert line[|pair.0| + 1..] == " " + pair.1 + "";
    TrimSpaceOf(" ", pair.1, "");
    assert line[..|pair.0|] == pair.0 && line[|pair.0|] == ':';
  }

  // The line starts with a key character, has a colon and ends in no carriage return.
  lemma {:induction false} PairLineChars(pair: (string, string))
    requires CanPrint(pair)
    ensures var line := PairLine(pair);
      && line != "" && LF !in line && !IsSpace(line[0]) && line[|line| - 1] != '\r' && ':' in line
  {
    var line := PairLine(pair);
    assert pair.0[0] in pair.0;
    assert line[|pair.0|] == ':';
    if pair.1 != "" {
      assert line[|line| - 1] == pair.1[|pair.1| - 1];
    } else {
      assert line[|line| - 1] == ' ';
    }
  }

  predicate ReadsAs(line: string, pair: (string, string)) {
    !IsFenceLine(line) && !Blank(StripCR(line)) && KeyValue(StripCR(line)) == Some(pair)
  }

  lemma {:induction false} PrintedMeta(pairs: seq<(string, string)>, lines: seq<string>, n: nat)
    requires n <= |pairs| && n + 1 <= |lines|
    requires forall i :: 0 <= i < n ==> ReadsAs(lines[i + 1], pairs[i])
    ensures PairsBetween(lines, 1, n + 1)
    ensures MetaOf(lines, 1, n + 1) == LastValues(pairs[..n])
  {
    hide KeyValue, StripCR, Blank;
    if n > 0 {
      PrintedMeta(pairs, lines, n - 1);
      assert ReadsAs(lines[(n - 1) + 1], pairs[n - 1]);
      assert pairs[..n][..n - 1] == pairs[..n - 1];
    }
  }

  lemma {:induction false} LastValuesWin(pairs: seq<(string, string)>)
    ensures IsLastWins(pairs, LastValues(pairs))
  {
    hide IsLastWins;
    if pairs == [] {
      NothingWins();
    } else {
      var before, p := pairs[..|pairs| - 1], pairs[|pairs| - 1];
      LastValuesWin(before);
      LastWinsSnoc(before, LastValues(before), p);
      assert pairs == before + [p];
    }
  }

  lemma {:induction false} NothingWins()
    ensures IsLastWins([], map[])
  {
  }

  lemma {:induction false} LastWinsSnoc(pairs: seq<(string, string)>, meta: map<string, string>, p: (string, string))
    requires IsLastWins(pairs, meta)
    ensures IsLastWins(pairs + [p], meta[p.0 := p.1])
  {
    var all, meta' := pairs + [p], meta[p.0 := p.1];
    forall key
      ensures key in meta' <==> exists i :: 0 <= i < |all| && all[i].0 == key
    {
      if key == p.0 {
        assert all[|pairs|].0 == key;
      } else if key in meta {
        var i :| 0 <= i < |pairs| && pairs[i].0 == key;
        assert all[i].0 == key;
      }
    }
    forall i | 0 <= i < |all| && (forall j :: i < j < |all| ==> all[j].0 != all[i].0)
      ensures all[i].0 in meta' && meta'[all[i].0] == all[i].1
    {
      if i < |pairs| {
        assert all[|pairs|].0 != all[i].0;
        assert forall j :: i < j < |pairs| ==> all[j] == pairs[j];
        assert pairs[i].0 in meta;
      }
    }
  }

  // Parsing a printed block gives back exactly the body and the last value of each key.
  lemma {:induction false} PrintParses(pairs: seq<(string, string)>, body: string)
    requires forall p <- pairs :: CanPrint(p)
    ensures Parse(Print(pairs, body)) == Parsed(LastValues(pairs), body)
  {
    var lines, n := Split(Print(pairs, body), LF), |pairs|;
    PrintedLines(pairs, body);
    forall i | 0 <= i < n
      ensures ReadsAs(lines[i + 1], pairs[i])
    {
      assert pairs[i] in pairs;
      PairLineParses(pairs[i]);
    }
    PrintedMeta(pairs, lines, n);
    assert pairs[..n] == pairs;
    JoinSplit(body, LF);
    ParsesAfterPairs(lines, 1, n + 1);
  }

  lemma {:induction false} PrintedLines(pairs: seq<(string, string)>, body: string)
    requires forall p <- pairs :: CanPrint(p)
    ensures var lines := Split(Print(pairs, body), LF);
      && |lines| > |pairs| + 1
      && lines[0] == lines[|pairs| + 1] == FENCE
      && (forall i :: 0 <= i < |pairs| ==> lines[i + 1] == PairLine(pairs[i]))
      && lines[|pairs| + 2..] == Split(body, LF)
  {
    var head := [FENCE] + PairLines(pairs) + [FENCE];
    forall l | l in head
      ensures LF !in l
    {
      if l != FENCE {
        var i :| 0 <= i < |pairs| && PairLines(pairs)[i] == l;
        assert pairs[i] in pairs;
        PairLineParses(pairs[i]);
      }
    }
    SplitUnlines(head, body);
    assert Split(Print(pairs, body), LF) == head + Split(body, LF);
  }
}
