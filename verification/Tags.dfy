/**
The editor's tags field (internal/web/admin.go, parseTags and editorModel).
*/
module Tags {
  import opened Text
  import opened Order
  import opened Slug
  import opened DocStore

  function SlugList(lower: Lowering, parts: seq<string>): (r: seq<string>)
  {
    seq(|parts|, i requires 0 <= i < |parts| => SlugOf(lower, parts[i]))
  }

  // Without empty strings and without repeats after the first
  function Deduplicated(slugs: seq<string>): seq<string> {
    if slugs == [] then []
    else
      var before, slug := Deduplicated(slugs[..|slugs| - 1]), slugs[|slugs| - 1];
      if slug == "" || slug in before then before else before + [slug]
  }

  lemma {:induction false} NothingDeduplicated(slugs: seq<string>)
    requires slugs == []
    ensures Deduplicated(slugs) == []
  {
  }

  lemma {:induction false} DeduplicatedSnoc(slugs: seq<string>, i: nat)
    requires i < |slugs|
    ensures var before := Deduplicated(slugs[..i]);
      Deduplicated(slugs[..i + 1]) == if slugs[i] == "" || slugs[i] in before then before else before + [slugs[i]]
  {
    assert slugs[..i + 1][..i] == slugs[..i];
  }

  function TagsOfField(lower: Lowering, field: string): seq<string> {
    Deduplicated(SlugList(lower, Split(field, ',')))
  }

  method ParseTags(lower: Lowering, field: string) returns (tags: seq<string>)
    ensures tags == TagsOfField(lower, field)
  {
    hide SlugOf, Split, Deduplicated;
    var parts := Split(field, ',');
    ghost var slugs := SlugList(lower, parts);
    tags := [];
    NothingDeduplicated(slugs[..0]);
    var seen: set<string> := {};
    for i := 0 to |parts|
      invariant tags == Deduplicated(slugs[..i])
      invariant seen == set t | t in tags
    {
      DeduplicatedSnoc(slugs, i);
      var slug := Slugify(lower, parts[i]);
      if slug == "" || slug in seen {
        continue;
      }
      seen := seen + {slug};
      tags := tags + [slug];
    }
    assert slugs[..|parts|] == slugs;
  }

  // The first place of this slug is before any place of the other one.
  ghost predicate OccursBefore(slugs: seq<string>, slug: string, other: string) {
    exists a :: 0 <= a < |slugs| && slugs[a] == slug && other !in slugs[..a + 1]
  }

  ghost predicate InOrderOfOccurrence(slugs: seq<string>, tags: seq<string>) {
    forall i, j :: 0 <= i < j < |tags| ==> OccursBefore(slugs, tags[i], tags[j])
  }

  lemma {:induction false} DeduplicatedIs(slugs: seq<string>)
    ensures Distinct(Deduplicated(slugs)) && ToSet(Deduplicated(slugs)) == ToSet(slugs) - {""}
    decreases |slugs|
  {
    if slugs != [] {
      var before, slug := slugs[..|slugs| - 1], slugs[|slugs| - 1];
      assert slugs == before + [slug];
      DeduplicatedIs(before);
      var tags := Deduplicated(before);
      assert ToSet(slugs) == ToSet(before) + {slug};
      assert ToSet(tags + [slug]) == ToSet(tags) + {slug};
      assert slug in tags <==> slug in ToSet(tags);
    }
  }

  lemma {:induction false} DeduplicatedInOrder(slugs: seq<string>)
    ensures InOrderOfOccurrence(slugs, Deduplicated(slugs))
    decreases |slugs|
  {
    if slugs != [] {
      var before := slugs[..|slugs| - 1];
      DeduplicatedInOrder(before);
      DeduplicatedIs(before);
      var tags, all := Deduplicated(before), Deduplicated(slugs);
      forall i, j | 0 <= i < j < |all|
        ensures OccursBefore(slugs, all[i], all[j])
      {
        if j < |tags| {
          assert OccursBefore(before, tags[i], tags[j]);
        } else {
          NewTagComesLast(before, tags[i], all[j]);
        }
        OccursBeforeSnoc(slugs, all[i], all[j]);
      }
    }
  }

  lemma {:induction false} NewTagComesLast(slugs: seq<string>, slug: string, other: string)
    requires slug in Deduplicated(slugs) && other != "" && other !in Deduplicated(slugs)
    ensures OccursBefore(slugs, slug, other)
  {
    DeduplicatedIs(slugs);
    assert slug in ToSet(Deduplicated(slugs)) && other !in ToSet(Deduplicated(slugs));
    assert slug in slugs && other !in slugs;
    var a :| 0 <= a < |slugs| && slugs[a] == slug;
    assert other !in slugs[..a + 1];
  }

  lemma {:induction false} OccursBeforeSnoc(slugs: seq<string>, slug: string, other: string)
    requires slugs != [] && OccursBefore(slugs[..|slugs| - 1], slug, other)
    ensures OccursBefore(slugs, slug, other)
  {
  }

  lemma {:induction false} DeduplicatedFixes(slugs: seq<string>)
    requires Distinct(slugs) && "" !in slugs
    ensures Deduplicated(slugs) == slugs
    decreases |slugs|
  {
    if slugs != [] {
      var before, slug := slugs[..|slugs| - 1], slugs[|slugs| - 1];
      assert slugs == before + [slug];
      DeduplicatedFixes(before);
    }
  }

  // The parsed tags are slugs, no two alike, in the order in which the field first names them;
  // they are all the non-empty slugs of its comma-separated parts.
  lemma {:induction false} TagsAreSlugs(lower: Lowering, field: string)
    ensures var tags, slugs := TagsOfField(lower, field), SlugList(lower, Split(field, ','));
      && Distinct(tags) && (forall t <- tags :: IsSlug(t))
      && ToSet(tags) == ToSet(slugs) - {""} && InOrderOfOccurrence(slugs, tags)
  {
    var tags, slugs := TagsOfField(lower, field), SlugList(lower, Split(field, ','));
    DeduplicatedIs(slugs);
    DeduplicatedInOrder(slugs);
    forall t | t in tags
      ensures IsSlug(t)
    {
      assert t in ToSet(tags);
      var i :| 0 <= i < |slugs| && slugs[i] == t;
      SlugShape(lower, Split(field, ',')[i]);
    }
  }

  // ---------- Showing tags in the editor ----------

  // strings.Join(slugs, ", ")
  function TagsField(slugs: seq<string>): string {
    if slugs == [] then ""
    else if |slugs| == 1 then slugs[0]
    else TagsField(slugs[..|slugs| - 1]) + ", " + slugs[|slugs| - 1]
  }

  function FieldParts(slugs: seq<string>): (r: seq<string>)
    ensures |r| == |slugs|
  {
    seq(|slugs|, i requires 0 <= i < |slugs| => if i == 0 then slugs[0] else " " + slugs[i])
  }

  lemma {:induction false} SplitSnoc(s: string, sep: char, p: string)
    requires sep !in p
    ensures Split(s + [sep] + p, sep) == Split(s, sep) + [p]
  {
    var t := s + [sep] + p;
    if s == "" {
      assert t == "" + [sep] + p;
      SplitAt("", sep, p);
      SplitOne(p, sep);
    } else {
      SplitSnoc(s[1..], sep, p);
      assert t[1..] == s[1..] + [sep] + p;
      var rest := Split(s[1..], sep);
      if s[0] == sep {
        assert [""] + (rest + [p]) == ([""] + rest) + [p];
      } else {
        assert (rest + [p])[0] == rest[0] && (rest + [p])[1..] == rest[1..] + [p];
      }
    }
  }

  lemma {:induction false} FieldSnoc(slugs: seq<string>)
    requires |slugs| > 1
    ensures var before, last := slugs[..|slugs| - 1], " " + slugs[|slugs| - 1];
      TagsField(slugs) == TagsField(before) + [','] + last && FieldParts(slugs) == FieldParts(before) + [last]
  {
    var before, slug := slugs[..|slugs| - 1], slugs[|slugs| - 1];
    assert ", " == [','] + " ";
    assert TagsField(before) + ", " + slug == TagsField(before) + [','] + (" " + slug);
  }

  lemma {:induction false} FieldOne(slugs: seq<string>)
    requires |slugs| == 1
    ensures TagsField(slugs) == slugs[0] && FieldParts(slugs) == [slugs[0]]
  {
  }

  lemma {:induction false} SplitField(slugs: seq<string>)
    requires slugs != [] && forall s <- slugs :: ',' !in s
    ensures Split(TagsField(slugs), ',') == FieldParts(slugs)
  {
    hide Split, TagsField, FieldParts;
    var k := |slugs| - 1;
    assert slugs[k] in slugs;
    if k == 0 {
      FieldOne(slugs);
      SplitOne(slugs[0], ',');
    } else {
      FieldSnoc(slugs);
      SplitField(slugs[..k]);
      SplitSnoc(TagsField(slugs[..k]), ',', " " + slugs[k]);
    }
  }

  lemma {:induction false} SpacedSlug(lower: Lowering, s: string)
    requires IsSlug(s) && !IsAlnum(lower(' '))
    ensures SlugOf(lower, s) == s && SlugOf(lower, " " + s) == s && ',' !in s
  {
    SlugShape(lower, s);
    var l := Lower(lower, " " + s);
    assert l[1..] == Lower(lower, s);
    assert !IsAlnum(l[0]);
  }

  // Parsing the field the editor shows gives back the same tags.
  lemma {:induction false} TagsRoundTrip(lower: Lowering, slugs: seq<string>)
    requires Distinct(slugs) && (forall s <- slugs :: IsSlug(s)) && !IsAlnum(lower(' '))
    ensures TagsOfField(lower, TagsField(slugs)) == slugs
  {
    forall s | s in slugs
      ensures SlugOf(lower, s) == s && SlugOf(lower, " " + s) == s && ',' !in s
    {
      SpacedSlug(lower, s);
    }
    if slugs == [] {
      assert Split("", ',') == [""];
      assert Lower(lower, "") == "";
      assert SlugList(lower, [""]) == [""];
      assert [""][..0] == [];
    } else {
      SplitField(slugs);
      SlugListOfField(lower, slugs);
      DeduplicatedFixes(slugs);
    }
  }

  lemma {:induction false} SlugListOfField(lower: Lowering, slugs: seq<string>)
    requires forall s <- slugs :: SlugOf(lower, s) == s && SlugOf(lower, " " + s) == s
    ensures SlugList(lower, FieldParts(slugs)) == slugs
  {
  }

  // A save from the editor never violates the join table's key: it fails only when the
  // article is not there. Afterwards the article's tags are the slugs named in the field.
  lemma {:induction false} SaveWithField(t: Tables, lower: Lowering, id: int, title: string, author: string,
                                         bodyMD: string, bodyHTML: string,
                                         renderVersion: int, field: string, now: Time)
    requires Valid(t)
    ensures var r := AfterSave(t, id, title, author, bodyMD, bodyHTML, renderVersion, TagsOfField(lower, field), now);
      && r != NotSaved(UniqueViolation)
      && (r.SavedAs? <==> IsArticle(t, id))
      && (r.SavedAs? ==> TagsOf(r.tables, id) == ToSet(SlugList(lower, Split(field, ','))) - {""})
  {
    TagsAreSlugs(lower, field);
    SaveResets(t, id, title, author, bodyMD, bodyHTML, renderVersion, TagsOfField(lower, field), now);
  }
}
