/**
The docs outline: the h2 markup the render pipeline prints (internal/content/anchors.go) and the
regular expressions that read it back (internal/web/sections.go).
*/
module Outline {
  import opened Text

  datatype Section = Section(id: string, offset: string, title: string)

  // ---------- Printing ----------

  // html.EscapeString
  function EscapeChar(c: char): string {
    if c == '&' then "&amp;"
    else if c == '\'' then "&#39;"
    else if c == '<' then "&lt;"
    else if c == '>' then "&gt;"
    else if c == '"' then "&#34;"
    else [c]
  }

  function Escape(s: string): string {
    if s == "" then "" else EscapeChar(s[0]) + Escape(s[1..])
  }

  const H2_OPEN := "<h2 id=\""
  const ANCHOR_OPEN := "><a class=\"offset-anchor\""
  const ANCHOR_CLOSE := "/a>"
  const H2_CLOSE := "</h2>"

  // The printed pieces each come with the text that follows them on the page.

  // The rest of the start tag, the chip, and one space
  function ChipThen(id: string, offset: string, rest: string): string {
    ANCHOR_OPEN + ((" href=\"#" + Escape(id) + "\"") + ">" + (offset + "<" + (ANCHOR_CLOSE + (" " + rest))))
  }

  function HeadingThen(h: Section, rest: string): string {
    H2_OPEN + (h.id + "\"" + ChipThen(h.id, h.offset, Escape(h.title) + (H2_CLOSE + rest)))
  }

  // A page: text, then headings each followed by text
  function Page(filler: string, items: seq<(Section, string)>): string
    decreases |items|
  {
    if items == [] then filler
    else filler + HeadingThen(items[0].0, Page(items[0].1, items[1..]))
  }

  // ---------- Reading ----------

  function StripPrefix(s: string, p: string): (r: Option<string>)
    ensures r.Some? ==> |r.value| == |s| - |p|
  {
    if p <= s then Some(s[|p|..]) else None
  }

  // What precedes and what follows the first occurrence of p
  function CutAt(s: string, p: string): (r: Option<(string, string)>)
    ensures r.Some? ==> |r.value.1| <= |s|
  {
    if p <= s then Some(("", s[|p|..]))
    else if s == "" then None
    else match CutAt(s[1..], p)
      case None => None
      case Some((before, after)) => Some(([s[0]] + before, after))
  }

  // \s
  predicate IsReSpace(c: char) {
    c == '\t' || c == '\n' || c == '\U{000c}' || c == '\r' || c == ' '
  }

  function SkipSpace(s: string): (r: string)
    ensures |r| <= |s|
  {
    if s != "" && IsReSpace(s[0]) then SkipSpace(s[1..]) else s
  }

  datatype Match = Match(id: string, offset: string, inner: string, rest: string)

  // (?s)<h2 id="([^"]+)"><a class="offset-anchor"[^>]*>([^<]+)</a>\s*(.*?)</h2> at the start of s,
  // one group at a time
  function MatchAt(s: string): (m: Option<Match>)
    ensures m.Some? ==> |m.value.rest| < |s|
  {
    match StripPrefix(s, H2_OPEN)
    case None => None
    case Some(t) =>
      match CutAt(t, "\"")
      case None => None
      case Some((id, u)) => if id == "" then None else MatchChip(id, u)
  }

  function MatchChip(id: string, s: string): (m: Option<Match>)
    ensures m.Some? ==> |m.value.rest| <= |s|
  {
    match StripPrefix(s, ANCHOR_OPEN)
    case None => None
    case Some(t) =>
      match CutAt(t, ">")
      case None => None
      case Some((_, u)) => MatchOffset(id, u)
  }

  function MatchOffset(id: string, s: string): (m: Option<Match>)
    ensures m.Some? ==> |m.value.rest| <= |s|
  {
    match CutAt(s, "<")
    case None => None
    case Some((offset, t)) =>
      if offset == "" then None
      else match StripPrefix(t, ANCHOR_CLOSE)
        case None => None
        case Some(u) => MatchTitle(id, offset, SkipSpace(u))
  }

  function MatchTitle(id: string, offset: string, s: string): (m: Option<Match>)
    ensures m.Some? ==> |m.value.rest| <= |s|
  {
    match CutAt(s, H2_CLOSE)
    case None => None
    case Some((inner, rest)) => Some(Match(id, offset, inner, rest))
  }

  // The leftmost matches one after another, not overlapping
  function FindAll(s: string): seq<Match>
    decreases |s|
  {
    if s == "" then []
    else match MatchAt(s)
      case Some(m) => [m] + FindAll(m.rest)
      case None => FindAll(s[1..])
  }

  // <[^>]*> replaced by nothing
  function StripTags(s: string): string
    decreases |s|
  {
    if s == "" then ""
    else if s[0] != '<' || CutAt(s[1..], ">").None? then [s[0]] + StripTags(s[1..])
    else StripTags(CutAt(s[1..], ">").value.1)
  }

  // html.UnescapeString, for the entities html.EscapeString writes
  function Unescape(s: string): string {
    if s == "" then ""
    else if "&amp;" <= s then "&" + Unescape(s[5..])
    else if "&#39;" <= s then "'" + Unescape(s[5..])
    else if "&lt;" <= s then "<" + Unescape(s[4..])
    else if "&gt;" <= s then ">" + Unescape(s[4..])
    else if "&#34;" <= s then "\"" + Unescape(s[5..])
    else [s[0]] + Unescape(s[1..])
  }

  function SectionOf(m: Match): Section {
    Section(m.id, m.offset, Unescape(StripTags(m.inner)))
  }

  function SectionsOf(ms: seq<Match>): (r: seq<Section>)
  {
    seq(|ms|, i requires 0 <= i < |ms| => SectionOf(ms[i]))
  }

  method ExtractSections(bodyHTML: string) returns (sections: seq<Section>)
    ensures sections == SectionsOf(FindAll(bodyHTML))
  {
    sections := [];
    var ms := FindAll(bodyHTML);
    for i := 0 to |ms|
      invariant sections == SectionsOf(ms[..i])
    {
      var title := Unescape(StripTags(ms[i].inner));
      sections := sections + [Section(ms[i].id, ms[i].offset, title)];
    }
    assert ms[..|ms|] == ms;
  }

  // ---------- Escaping ----------

  lemma {:induction false} UnescapeChar(c: char, s: string)
    ensures Unescape(EscapeChar(c) + s) == [c] + Unescape(s)
  {
    var e := EscapeChar(c);
    var t := e + s;
    assert t[|e|..] == s;
    assert t[0] == e[0];
    if e != [c] {
      assert t[1] == e[1] && t[2] == e[2] && t[3] == e[3];
      assert e <= t;
    }
  }

  lemma {:induction false} UnescapeEscape(s: string)
    ensures Unescape(Escape(s)) == s
  {
    if s != "" {
      UnescapeChar(s[0], Escape(s[1..]));
      UnescapeEscape(s[1..]);
    }
  }

  lemma {:induction false} EscapeHasNoMarkup(s: string)
    ensures '<' !in Escape(s) && '>' !in Escape(s) && '"' !in Escape(s)
  {
    if s != "" {
      EscapeHasNoMarkup(s[1..]);
    }
  }

  lemma {:induction false} StripTagsKeeps(s: string)
    requires '<' !in s
    ensures StripTags(s) == s
  {
    if s != "" {
      assert s[0] in s;
      StripTagsKeeps(s[1..]);
    }
  }

  // Escaping makes no space of anything else, and leaves spaces alone.
  lemma {:induction false} EscapeKeepsSpace(c: char)
    ensures EscapeChar(c) != "" && (IsReSpace(EscapeChar(c)[0]) <==> IsReSpace(c))
    ensures IsReSpace(c) ==> EscapeChar(c) == [c]
  {
  }

  // Leading space is the same before and after escaping.
  lemma {:induction false} SkipEscaped(s: string, rest: string)
    requires rest != "" && !IsReSpace(rest[0])
    ensures SkipSpace(Escape(s) + rest) == Escape(SkipSpace(s)) + rest
  {
    if s == "" {
      assert Escape(s) + rest == rest;
    } else {
      var e, tail := EscapeChar(s[0]), Escape(s[1..]) + rest;
      assert Escape(s) + rest == e + tail;
      EscapeKeepsSpace(s[0]);
      hide EscapeChar, IsReSpace;
      assert (e + tail)[0] == e[0] && (|e| == 1 ==> (e + tail)[1..] == tail);
      SkipEscaped(s[1..], rest);
    }
  }

  // ---------- Finding the headings ----------

  lemma {:induction false} CutAtFinds(a: string, p: string, b: string)
    requires p != "" && p[0] !in a
    ensures CutAt(a + p + b, p) == Some((a, b))
  {
    var s := a + p + b;
    if a == "" {
      assert s == p + b && s[|p|..] == b;
    } else {
      assert s[0] == a[0] && a[0] in a;
      assert s[1..] == a[1..] + p + b;
      CutAtFinds(a[1..], p, b);
      assert a == [a[0]] + a[1..];
    }
  }

  ghost predicate CanPrint(h: Section) {
    h.id != "" && '"' !in h.id && h.offset != "" && '<' !in h.offset
  }

  lemma {:induction false} IdMatches(id: string, u: string)
    requires id != "" && '"' !in id
    ensures MatchAt(H2_OPEN + (id + "\"" + u)) == MatchChip(id, u)
  {
    CutAtFinds(id, "\"", u);
  }

  lemma {:induction false} ChipMatches(id: string, attrs: string, u: string)
    requires '>' !in attrs
    ensures MatchChip(id, ANCHOR_OPEN + (attrs + ">" + u)) == MatchOffset(id, u)
  {
    CutAtFinds(attrs, ">", u);
  }

  lemma {:induction false} OffsetMatches(id: string, offset: string, u: string)
    requires offset != "" && '<' !in offset
    ensures MatchOffset(id, offset + "<" + (ANCHOR_CLOSE + u)) == MatchTitle(id, offset, SkipSpace(u))
  {
    CutAtFinds(offset, "<", ANCHOR_CLOSE + u);
  }

  lemma {:induction false} TitleMatches(id: string, offset: string, title: string, rest: string)
    ensures MatchTitle(id, offset, SkipSpace(" " + (Escape(title) + (H2_CLOSE + rest)))) ==
      Some(Match(id, offset, Escape(SkipSpace(title)), rest))
  {
    var s := Escape(title) + (H2_CLOSE + rest);
    assert (" " + s)[1..] == s;
    SkipEscaped(title, H2_CLOSE + rest);
    var inner := Escape(SkipSpace(title));
    EscapeHasNoMarkup(SkipSpace(title));
    assert inner + (H2_CLOSE + rest) == inner + H2_CLOSE + rest;
    CutAtFinds(inner, H2_CLOSE, rest);
  }

  lemma {:induction false} HeadingMatches(h: Section, rest: string)
    requires CanPrint(h)
    ensures MatchAt(HeadingThen(h, rest)) == Some(Match(h.id, h.offset, Escape(SkipSpace(h.title)), rest))
  {
    var body := Escape(h.title) + (H2_CLOSE + rest);
    IdMatches(h.id, ChipThen(h.id, h.offset, body));
    NoTagEndInHref(h.id);
    ChipMatches(h.id, " href=\"#" + Escape(h.id) + "\"", h.offset + "<" + (ANCHOR_CLOSE + (" " + body)));
    OffsetMatches(h.id, h.offset, " " + body);
    TitleMatches(h.id, h.offset, h.title, rest);
  }

  lemma {:induction false} NoTagEndInHref(id: string)
    ensures '>' !in " href=\"#" + Escape(id) + "\""
  {
    EscapeHasNoMarkup(id);
  }

  predicate Contains(s: string, p: string) {
    p <= s || (s != "" && Contains(s[1..], p))
  }

  // Text without a heading start tag matches nowhere, even where it runs into a heading.
  lemma {:induction false} FillerMatchesNothing(filler: string, next: string)
    requires !Contains(filler, H2_OPEN)
    requires next == "" || next[0] == '<'
    ensures FindAll(filler + next) == FindAll(next)
  {
    if filler == "" {
      assert filler + next == next;
    } else {
      var s := filler + next;
      assert s[1..] == filler[1..] + next;
      assert !(H2_OPEN <= s) by {
        NoStartAcross(filler, next);
      }
      FillerMatchesNothing(filler[1..], next);
    }
  }

  lemma {:induction false} NoStartAcross(filler: string, next: string)
    requires filler != "" && !(H2_OPEN <= filler)
    requires next == "" || next[0] == '<'
    ensures !(H2_OPEN <= filler + next)
  {
    var s, n := filler + next, |filler|;
    if n >= |H2_OPEN| {
      assert s[..|H2_OPEN|] == filler[..|H2_OPEN|];
    } else if next != "" {
      assert s[n] == '<' && H2_OPEN[n] != '<';
    }
  }

  // Reading a printed page returns its headings in order, each title without the white space
  // it starts with.
  lemma {:induction false} PageSections(filler: string, items: seq<(Section, string)>)
    requires !Contains(filler, H2_OPEN)
    requires forall it <- items :: CanPrint(it.0) && !Contains(it.1, H2_OPEN)
    ensures var found := SectionsOf(FindAll(Page(filler, items)));
      |found| == |items| && forall i :: 0 <= i < |items| ==>
        found[i] == items[i].0.(title := SkipSpace(items[i].0.title))
    decreases |items|
  {
    if items == [] {
      FillerMatchesNothing(filler, "");
      assert filler + "" == filler;
    } else {
      var h, rest := items[0].0, Page(items[0].1, items[1..]);
      assert items[0] in items;
      FirstHeading(h, rest);
      FillerMatchesNothing(filler, HeadingThen(h, rest));
      PageSections(items[0].1, items[1..]);
      assert SectionsOf(FindAll(Page(filler, items))) == [h.(title := SkipSpace(h.title))] + SectionsOf(FindAll(rest));
    }
  }

  lemma {:induction false} FirstHeading(h: Section, rest: string)
    requires CanPrint(h)
    ensures SectionsOf(FindAll(HeadingThen(h, rest))) == [h.(title := SkipSpace(h.title))] + SectionsOf(FindAll(rest))
    ensures HeadingThen(h, rest) != "" && HeadingThen(h, rest)[0] == '<'
  {
    HeadingMatches(h, rest);
    var title := SkipSpace(h.title);
    FirstSection(HeadingThen(h, rest), Match(h.id, h.offset, Escape(title), rest));
    TitleReads(title);
  }

  lemma {:induction false} FirstSection(s: string, m: Match)
    requires MatchAt(s) == Some(m)
    ensures SectionsOf(FindAll(s)) == [SectionOf(m)] + SectionsOf(FindAll(m.rest))
  {
  }

  lemma {:induction false} TitleReads(title: string)
    ensures Unescape(StripTags(Escape(title))) == title
  {
    EscapeHasNoMarkup(title);
    StripTagsKeeps(Escape(title));
    UnescapeEscape(title);
  }

  function HeadingsOf(items: seq<(Section, string)>): (r: seq<Section>)
  {
    seq(|items|, i requires 0 <= i < |items| => items[i].0)
  }

  predicate StartsWithSpace(s: string) {
    s != "" && IsReSpace(s[0])
  }

  // The outline round trip holds exactly when no title starts with white space.
  lemma {:induction false} OutlineRoundTrip(filler: string, items: seq<(Section, string)>)
    requires !Contains(filler, H2_OPEN)
    requires forall it <- items :: CanPrint(it.0) && !Contains(it.1, H2_OPEN)
    ensures SectionsOf(FindAll(Page(filler, items))) == HeadingsOf(items) <==>
      forall it <- items :: !StartsWithSpace(it.0.title)
  {
    PageSections(filler, items);
    var found := SectionsOf(FindAll(Page(filler, items)));
    if forall it <- items :: !StartsWithSpace(it.0.title) {
      forall i | 0 <= i < |items|
        ensures found[i] == items[i].0
      {
        assert items[i] in items;
      }
    } else {
      var it :| it in items && StartsWithSpace(it.0.title);
      var i :| 0 <= i < |items| && items[i] == it;
      assert |SkipSpace(it.0.title)| < |it.0.title|;
      assert found[i] != HeadingsOf(items)[i];
    }
  }
}
