/**
What a slug keeps of its text (internal/content/slug.go): its letters and digits, lower-cased and
in order, with a hyphen where something was dropped between two of them.
*/
module SlugText {
  import opened Text
  import opened Slug

  predicate IsLetterOrDigit(c: char) {
    'a' <= c <= 'z' || '0' <= c <= '9'
  }

  // The places of the characters that lower-case to a letter or digit
  function KeptPlaces(lower: Lowering, s: string): seq<nat> {
    if s == "" then []
    else
      var n := |s| - 1;
      KeptPlaces(lower, s[..n]) + if IsLetterOrDigit(lower(s[n])) then [n] else []
  }

  // The places of the characters other than hyphens
  function LetterPlaces(slug: string): seq<nat> {
    if slug == "" then []
    else
      var n := |slug| - 1;
      LetterPlaces(slug[..n]) + if slug[n] != '-' then [n] else []
  }

  ghost predicate ArePlaces(q: seq<nat>, n: nat) {
    (forall k :: 0 <= k < |q| ==> q[k] < n) && forall j, k :: 0 <= j < k < |q| ==> q[j] < q[k]
  }

  lemma {:induction false} KeptPlacesAre(lower: Lowering, s: string)
    ensures ArePlaces(KeptPlaces(lower, s), |s|)
    ensures forall i: nat :: i in KeptPlaces(lower, s) <==> i < |s| && IsLetterOrDigit(lower(s[i]))
  {
    if s != "" {
      KeptPlacesAre(lower, s[..|s| - 1]);
    }
  }

  lemma {:induction false} LetterPlacesAre(slug: string)
    ensures ArePlaces(LetterPlaces(slug), |slug|)
    ensures forall i: nat :: i in LetterPlaces(slug) <==> i < |slug| && slug[i] != '-'
  {
    if slug != "" {
      LetterPlacesAre(slug[..|slug| - 1]);
    }
  }

  // The slug's letters are the kept characters, and two are neighbours exactly when they were.
  ghost predicate Corresponds(lower: Lowering, s: string, p: seq<nat>, slug: string, q: seq<nat>) {
    && |p| == |q| && (forall k :: 0 <= k < |p| ==> p[k] < |s| && q[k] < |slug| && slug[q[k]] == lower(s[p[k]]))
    && (forall k :: 0 <= k < |p| - 1 ==> (q[k + 1] == q[k] + 1 <==> p[k + 1] == p[k] + 1))
  }

  // The last letter and the last kept character, when there are any
  ghost predicate EndsAlike(lower: Lowering, s: string, p: seq<nat>, slug: string, q: seq<nat>) {
    && |p| == |q| && (slug == "" <==> p == [])
    && (p != [] ==> q[|q| - 1] == |slug| - 1)
    && (EndsInRun(Lower(lower, s)) <==> p != [] && p[|p| - 1] == |s| - 1)
  }

  lemma {:induction false} LettersSnoc(slug: string, c: char)
    requires c != '-'
    ensures LetterPlaces(slug + [c]) == LetterPlaces(slug) + [|slug|]
    ensures LetterPlaces(slug + "-") == LetterPlaces(slug)
    ensures LetterPlaces(slug + "-" + [c]) == LetterPlaces(slug) + [|slug| + 1]
  {
    assert (slug + [c])[..|slug|] == slug && (slug + "-")[..|slug|] == slug;
    assert (slug + "-" + [c])[..|slug| + 1] == slug + "-";
  }

  lemma {:induction false} SlugSnoc(lower: Lowering, s: string, c: char)
    ensures var before, r := SlugOf(lower, s), lower(c);
      SlugOf(lower, s + [c]) ==
        if !IsAlnum(r) then before
        else if before == "" then [r]
        else if EndsInRun(Lower(lower, s)) then before + [r]
        else before + "-" + [r]
    ensures EndsInRun(Lower(lower, s + [c])) <==> IsAlnum(lower(c))
  {
    assert Lower(lower, s + [c]) == Lower(lower, s) + [lower(c)];
    HyphenatedSnoc(Lower(lower, s), lower(c));
  }

  lemma {:induction false} OneMore(lower: Lowering, s: string, c: char, p: seq<nat>, slug: string, q: seq<nat>,
                                   slug': string)
    requires Corresponds(lower, s, p, slug, q) && EndsAlike(lower, s, p, slug, q)
    requires slug' == if slug == "" || EndsInRun(Lower(lower, s)) then slug + [lower(c)] else slug + "-" + [lower(c)]
    ensures Corresponds(lower, s + [c], p + [|s|], slug', q + [|slug'| - 1])
    ensures EndsInRun(Lower(lower, s + [c])) ==> EndsAlike(lower, s + [c], p + [|s|], slug', q + [|slug'| - 1])
  {
    hide EndsInRun, Lower;
    assert forall k :: 0 <= k < |s| ==> (s + [c])[k] == s[k];
    assert forall k :: 0 <= k < |slug| ==> slug'[k] == slug[k];
    assert slug'[|slug'| - 1] == lower(c);
  }

  lemma {:induction false} Dropped(lower: Lowering, s: string, c: char, p: seq<nat>, slug: string, q: seq<nat>)
    requires Corresponds(lower, s, p, slug, q) && EndsAlike(lower, s, p, slug, q)
    requires !EndsInRun(Lower(lower, s + [c]))
    ensures Corresponds(lower, s + [c], p, slug, q) && EndsAlike(lower, s + [c], p, slug, q)
  {
    hide EndsInRun, Lower;
    assert forall k :: 0 <= k < |s| ==> (s + [c])[k] == s[k];
  }

  lemma {:induction false} KeptSnoc(lower: Lowering, s: string, c: char)
    ensures KeptPlaces(lower, s + [c]) == KeptPlaces(lower, s) + if IsLetterOrDigit(lower(c)) then [|s|] else []
  {
    assert (s + [c])[..|s|] == s;
  }

  lemma {:induction false} NoPlaces(lower: Lowering)
    ensures Corresponds(lower, "", KeptPlaces(lower, ""), SlugOf(lower, ""), LetterPlaces(SlugOf(lower, "")))
    ensures EndsAlike(lower, "", KeptPlaces(lower, ""), SlugOf(lower, ""), LetterPlaces(SlugOf(lower, "")))
  {
    assert Lower(lower, "") == "";
  }

  lemma {:induction false} PlacesCorrespond(lower: Lowering, s: string)
    ensures Corresponds(lower, s, KeptPlaces(lower, s), SlugOf(lower, s), LetterPlaces(SlugOf(lower, s)))
    ensures EndsAlike(lower, s, KeptPlaces(lower, s), SlugOf(lower, s), LetterPlaces(SlugOf(lower, s)))
  {
    hide SlugOf, Lower, EndsInRun, KeptPlaces, LetterPlaces, Corresponds, EndsAlike;
    if s == "" {
      NoPlaces(lower);
    } else {
      var before, c := s[..|s| - 1], s[|s| - 1];
      assert s == before + [c];
      PlacesCorrespond(lower, before);
      SlugSnoc(lower, before, c);
      KeptSnoc(lower, before, c);
      var p, slug := KeptPlaces(lower, before), SlugOf(lower, before);
      var q := LetterPlaces(slug);
      if IsAlnum(lower(c)) {
        LettersSnoc(slug, lower(c));
        assert slug == "" ==> slug + [lower(c)] == [lower(c)];
        OneMore(lower, before, c, p, slug, q, SlugOf(lower, s));
      } else {
        assert p + [] == p;
        Dropped(lower, before, c, p, slug, q);
      }
    }
  }

  // The slug's characters other than hyphens are the letters and digits of the lower-cased text, in
  // order, and between two of them is a hyphen exactly when something between them was dropped.
  lemma {:induction false} SlugCharacters(lower: Lowering, s: string)
    ensures var slug := SlugOf(lower, s);
      var p, q := KeptPlaces(lower, s), LetterPlaces(slug);
      && ArePlaces(p, |s|) && (forall i: nat :: i in p <==> i < |s| && IsLetterOrDigit(lower(s[i])))
      && ArePlaces(q, |slug|) && (forall i: nat :: i in q <==> i < |slug| && slug[i] != '-')
      && |p| == |q| && (forall k :: 0 <= k < |p| ==> slug[q[k]] == lower(s[p[k]]))
      && (forall k :: 0 <= k < |p| - 1 ==> q[k + 1] == q[k] + if p[k + 1] == p[k] + 1 then 1 else 2)
  {
    PlacesCorrespond(lower, s);
    SlugShape(lower, s);
    var slug := SlugOf(lower, s);
    var p, q := KeptPlaces(lower, s), LetterPlaces(slug);
    KeptPlacesAre(lower, s);
    LetterPlacesAre(slug);
    hide SlugOf, KeptPlaces, LetterPlaces, IsSlug;
    forall k | 0 <= k < |p| - 1
      ensures q[k + 1] == q[k] + if p[k + 1] == p[k] + 1 then 1 else 2
    {
      SpacingAt(lower, s, p, slug, q, k);
    }
  }

  lemma {:induction false} SpacingAt(lower: Lowering, s: string, p: seq<nat>, slug: string, q: seq<nat>, k: nat)
    requires Corresponds(lower, s, p, slug, q) && IsSlug(slug) && ArePlaces(q, |slug|) && k < |q| - 1
    requires forall i: nat :: i in q <==> i < |slug| && slug[i] != '-'
    ensures q[k + 1] == q[k] + if p[k + 1] == p[k] + 1 then 1 else 2
  {
    NextLetter(slug, q, k);
    hide IsSlug;
  }

  lemma {:induction false} NextLetter(slug: string, q: seq<nat>, k: nat)
    requires IsSlug(slug) && ArePlaces(q, |slug|) && k < |q| - 1
    requires forall i: nat :: i in q <==> i < |slug| && slug[i] != '-'
    ensures q[k + 1] <= q[k] + 2
  {
    var i := q[k] + 1;
    assert q[k] < q[k + 1] < |slug|;
    assert slug[i] == '-' ==> i + 1 < |slug| && slug[i + 1] != '-';
    hide IsSlug;
    if slug[i] == '-' {
      NextPlace(q, |slug|, k, i + 1);
    } else {
      NextPlace(q, |slug|, k, i);
    }
  }

  lemma {:induction false} NextPlace(q: seq<nat>, n: nat, k: nat, i: nat)
    requires k < |q| - 1 && q[k] < i && i in q && ArePlaces(q, n)
    ensures q[k + 1] <= i
  {
    var j :| 0 <= j < |q| && q[j] == i;
    assert j != k && !(j < k);
    assert j == k + 1 || q[k + 1] < q[j];
  }

  // A heading without letters and digits is a section.
  lemma {:induction false} EmptyBase(seen: set<string>)
    requires "section" !in seen
    ensures FreshId(seen, "") == "section"
  {
  }
}
