/**
What the two regular expressions of the outline match (internal/web/sections.go), on any HTML.
*/
module OutlineReading {
  import opened Text
  import opened Outline

  // p does not start in s before place n.
  ghost predicate NotBefore(s: string, p: string, n: int) {
    forall k :: 0 <= k < n && k <= |s| ==> !(p <= s[k..])
  }

  // Cutting is at the first occurrence.
  lemma {:induction false} CutAtIff(s: string, p: string, a: string, b: string)
    requires p != ""
    ensures CutAt(s, p) == Some((a, b)) <==> s == a + p + b && NotBefore(s, p, |a|)
  {
    hide CutAt;
    if CutAt(s, p) == Some((a, b)) {
      CutIsFirst(s, p, a, b);
    }
    if s == a + p + b && NotBefore(s, p, |a|) {
      FirstIsCut(s, p, a, b);
    }
  }

  lemma {:induction false} CutIsFirst(s: string, p: string, a: string, b: string)
    requires CutAt(s, p) == Some((a, b))
    ensures s == a + p + b && NotBefore(s, p, |a|)
  {
    if p <= s {
      assert s == "" + p + s[|p|..];
    } else {
      assert CutAt(s[1..], p) == Some((a[1..], b)) && a == [s[0]] + a[1..];
      hide CutAt, NotBefore;
      CutIsFirst(s[1..], p, a[1..], b);
      Behind(s, a[1..], p, b);
      NotBeforeNext(s, p, |a[1..]|);
    }
  }

  lemma {:induction false} Behind(s: string, a: string, p: string, b: string)
    requires s != "" && s[1..] == a + p + b
    ensures s == [s[0]] + a + p + b
  {
    assert s == [s[0]] + (a + p + b);
  }

  lemma {:induction false} NotBeforeNext(s: string, p: string, n: nat)
    requires s != "" && !(p <= s) && NotBefore(s[1..], p, n)
    ensures NotBefore(s, p, n + 1)
  {
    assert s[0..] == s;
    forall k | 0 <= k < n + 1 && k <= |s|
      ensures !(p <= s[k..])
    {
      assert k > 0 ==> s[k..] == s[1..][k - 1..];
    }
  }

  lemma {:induction false} FirstIsCut(s: string, p: string, a: string, b: string)
    requires s == a + p + b && NotBefore(s, p, |a|) && p != ""
    ensures CutAt(s, p) == Some((a, b))
  {
    if a == "" {
      assert s == p + b;
    } else {
      assert s[0..] == s && !(p <= s[0..]);
      assert s[1..] == a[1..] + p + b && a == [s[0]] + a[1..];
      assert forall k :: 0 <= k <= |s[1..]| ==> s[1..][k..] == s[k + 1..];
      FirstIsCut(s[1..], p, a[1..], b);
    }
  }

  lemma {:induction false} CutAtChar(s: string, c: char, a: string, b: string)
    ensures CutAt(s, [c]) == Some((a, b)) <==> s == a + [c] + b && c !in a
  {
    CutAtIff(s, [c], a, b);
    if s == a + [c] + b {
      forall k | 0 <= k < |a|
        ensures [c] <= s[k..] <==> a[k] == c
      {
        assert s[k..][0] == a[k];
      }
      if c in a {
        var k :| 0 <= k < |a| && a[k] == c;
        assert [c] <= s[k..];
      }
    }
  }

  // ---------- The heading expression ----------

  // \s
  ghost predicate IsSpace(c: char) {
    c in "\t\n\U{000c}\r "
  }

  ghost predicate AllSpace(s: string) {
    forall c <- s :: IsSpace(c)
  }

  // The parts of a heading: an id, the other attributes of the chip, its text, the space after it,
  // and the title, which is all up to the first end tag
  datatype Heading = Heading(id: string, attrs: string, chip: string, space: string, inner: string)

  // s is that heading and rest.
  ghost predicate IsHeadingText(s: string, h: Heading, rest: string) {
    && h.id != "" && '"' !in h.id && '>' !in h.attrs && h.chip != "" && '<' !in h.chip
    && AllSpace(h.space) && (h.inner == "" || !IsSpace(h.inner[0]))
    && NotBefore(h.inner + "</h2>" + rest, "</h2>", |h.inner|)
    && s == "<h2 id=\"" + (h.id + "\"" + ("><a class=\"offset-anchor\"" + (h.attrs + ">" +
      (h.chip + "<" + ("/a>" + (h.space + (h.inner + "</h2>" + rest)))))))
  }

  lemma {:induction false} SkipSpaceSplits(s: string) returns (space: string)
    ensures AllSpace(space) && s == space + SkipSpace(s)
    ensures SkipSpace(s) != "" ==> !IsSpace(SkipSpace(s)[0])
  {
    space := "";
    if s != "" && IsReSpace(s[0]) {
      var more := SkipSpaceSplits(s[1..]);
      space := [s[0]] + more;
    }
  }

  lemma {:induction false} SkipSpaceOf(space: string, s: string)
    requires AllSpace(space) && (s == "" || !IsSpace(s[0]))
    ensures SkipSpace(space + s) == s
  {
    if space == "" {
      assert space + s == s;
    } else {
      assert space[0] in space && (space + s)[1..] == space[1..] + s;
      SkipSpaceOf(space[1..], s);
    }
  }

  // A match gives such a text.
  lemma {:induction false} MatchIsHeading(s: string) returns (h: Heading)
    requires MatchAt(s).Some?
    ensures var m := MatchAt(s).value;
      IsHeadingText(s, h, m.rest) && m == Match(h.id, h.chip, h.inner, m.rest)
  {
    var m := MatchAt(s).value;
    var t := s[|H2_OPEN|..];
    var (id, u) := CutAt(t, "\"").value;
    var v := u[|ANCHOR_OPEN|..];
    var (attrs, w) := CutAt(v, ">").value;
    var (chip, x) := CutAt(w, "<").value;
    var y := x[|ANCHOR_CLOSE|..];
    var (inner, rest) := CutAt(SkipSpace(y), H2_CLOSE).value;
    assert m == Match(id, chip, inner, rest);
    assert s == "<h2 id=\"" + t && u == "><a class=\"offset-anchor\"" + v && x == "/a>" + y;
    var space := SkipSpaceSplits(y);
    h := Heading(id, attrs, chip, space, inner);
    assert H2_CLOSE == "</h2>";
    hide MatchAt, CutAt, SkipSpace;
    CutAtChar(t, '"', id, u);
    CutAtChar(v, '>', attrs, w);
    CutAtChar(w, '<', chip, x);
    CutAtIff(SkipSpace(y), "</h2>", inner, rest);
    assert inner != "" ==> SkipSpace(y)[0] == inner[0];
  }

  // Every such text matches.
  lemma {:induction false} TextMatches(s: string, h: Heading, rest: string)
    requires IsHeadingText(s, h, rest)
    ensures MatchAt(s) == Some(Match(h.id, h.chip, h.inner, rest))
  {
    var title := h.inner + "</h2>" + rest;
    var x := h.chip + "<" + ("/a>" + (h.space + title));
    IdMatches(h.id, "><a class=\"offset-anchor\"" + (h.attrs + ">" + x));
    ChipMatches(h.id, h.attrs, x);
    OffsetMatches(h.id, h.chip, h.space + title);
    assert title[0] == if h.inner == "" then '<' else h.inner[0];
    SkipSpaceOf(h.space, title);
    CutAtIff(title, "</h2>", h.inner, rest);
    hide MatchAt, CutAt, MatchChip, MatchOffset, SkipSpace, AllSpace, NotBefore;
  }

  // What the heading expression matches at the start of a text
  lemma {:induction false} MatchIff(s: string, id: string, chip: string, inner: string, rest: string)
    ensures MatchAt(s) == Some(Match(id, chip, inner, rest)) <==>
      exists attrs, space :: IsHeadingText(s, Heading(id, attrs, chip, space, inner), rest)
  {
    hide MatchAt, IsHeadingText;
    if MatchAt(s) == Some(Match(id, chip, inner, rest)) {
      var h := MatchIsHeading(s);
      assert h == Heading(id, h.attrs, chip, h.space, inner);
    }
    if attrs, space :| IsHeadingText(s, Heading(id, attrs, chip, space, inner), rest) {
      TextMatches(s, Heading(id, attrs, chip, space, inner), rest);
    }
  }

  // The leftmost match comes first, and the search goes on behind it; a text in which nothing
  // matches has none.
  lemma {:induction false} FindAllIs(s: string, n: nat)
    requires n <= |s| && forall k :: 0 <= k < n ==> MatchAt(s[k..]).None?
    ensures n < |s| && MatchAt(s[n..]).Some? ==>
      FindAll(s) == [MatchAt(s[n..]).value] + FindAll(MatchAt(s[n..]).value.rest)
    ensures n == |s| ==> FindAll(s) == []
    decreases |s|
  {
    hide MatchAt;
    assert s[0..] == s;
    if n > 0 {
      assert MatchAt(s[0..]).None?;
      assert forall k :: 0 <= k <= |s[1..]| ==> s[1..][k..] == s[k + 1..];
      FindAllIs(s[1..], n - 1);
    }
  }

  // ---------- The tag expression ----------

  // A tag is dropped with what is in it; what no tag is in stays, and so does an open bracket that
  // nothing closes.
  lemma {:induction false} TagDropped(a: string, t: string, b: string)
    requires '<' !in a && '>' !in t
    ensures StripTags(a + ("<" + t + ">" + b)) == a + StripTags(b)
    ensures StripTags(a + t) == a + t
  {
    var s := "<" + t + ">" + b;
    BeforeTag(a, s);
    BeforeTag(a, t);
    assert s[1..] == t + ">" + b;
    CutAtChar(s[1..], '>', t, b);
    NoTags(t);
  }

  lemma {:induction false} BeforeTag(a: string, s: string)
    requires '<' !in a
    ensures StripTags(a + s) == a + StripTags(s)
  {
    if a == "" {
      assert a + s == s;
    } else {
      assert a[0] in a && (a + s)[1..] == a[1..] + s;
      BeforeTag(a[1..], s);
      assert a == [a[0]] + a[1..];
    }
  }

  lemma {:induction false} NoTags(s: string)
    requires '>' !in s
    ensures StripTags(s) == s
  {
    if s != "" {
      NoTags(s[1..]);
      NotCut(s[1..]);
    }
  }

  lemma {:induction false} NotCut(s: string)
    requires '>' !in s
    ensures CutAt(s, ">").None?
  {
    if s != "" {
      assert s[0] in s;
      NotCut(s[1..]);
    }
  }

  // ---------- Entities ----------

  // The five characters that are escaped, and text without an ampersand, which reads as it is
  lemma {:induction false} Entities(s: string)
    ensures Escape("&") == "&amp;" && Escape("'") == "&#39;" && Escape("<") == "&lt;"
    ensures Escape(">") == "&gt;" && Escape("\"") == "&#34;"
    ensures '&' !in s ==> Unescape(s) == s
  {
    forall c: char
      ensures Escape([c]) == EscapeChar(c)
    {
      assert [c][1..] == "";
    }
    if '&' !in s {
      hide Escape;
      NoEntities(s);
    }
  }

  lemma {:induction false} NoEntities(s: string)
    requires '&' !in s
    ensures Unescape(s) == s
  {
    if s != "" {
      assert s[0] in s;
      NoEntities(s[1..]);
    }
  }
}
