/**
When a sync run succeeds (cmd/sync/sync.go, `run`): every file of every archive is in order, and no
topic of a language, no project, and no page slug within a project comes twice.
*/
module RunOutcome {
  import opened Text
  import opened Slug
  import opened Paths
  import opened Order
  import opened Entries
  import opened SyncFiles
  import opened SyncRun
  import opened ArchiveOrder
  import opened Conservation
  import Markers

  // ---------- One archive ----------

  // The archive's snippets and pages are those of its files, and it is in error when a file is.
  lemma {:induction false} GatheredIff(parts: seq<Option<Parts>>)
    ensures Gather(parts).Some? <==> forall p <- parts :: p.Some?
    ensures Gather(parts).Some? ==> forall sn :: sn in Gather(parts).value.snippets <==>
      exists p <- parts :: sn in p.value.snippets
    ensures Gather(parts).Some? ==> forall page :: page in Gather(parts).value.pages <==>
      exists p <- parts :: page in p.value.pages
  {
    if parts != [] {
      var before, last := parts[..|parts| - 1], parts[|parts| - 1];
      assert parts == before + [last];
      GatheredIff(before);
      if Gather(parts).Some? {
        var a, b := Gather(before).value, last.value;
        forall sn
          ensures sn in Gather(parts).value.snippets <==> exists p <- parts :: sn in p.value.snippets
        {
          assert sn in a.snippets + b.snippets <==> sn in a.snippets || sn in b.snippets;
          assert last in parts;
        }
        forall page
          ensures page in Gather(parts).value.pages <==> exists p <- parts :: page in p.value.pages
        {
          assert page in a.pages + b.pages <==> page in a.pages || page in b.pages;
          assert last in parts;
        }
      }
    }
  }

  // What an archive gives, file by file
  lemma {:induction false} CollectedIff(lower: Lowering, spec: SourceSpec, info: LangInfo, files: seq<File>)
    ensures var all := Collected(lower, spec, info, files);
      && (all.Some? <==> forall f <- files :: FileSnippets(info, f).Some? && FilePages(lower, spec.projects, f).Some?)
      && (all.Some? ==> forall sn :: sn in all.value.snippets <==>
            exists f <- files :: sn in FileSnippets(info, f).value)
      && (all.Some? ==> forall page :: page in all.value.pages <==>
            exists f <- files :: page in FilePages(lower, spec.projects, f).value)
  {
    hide Gather, FileSnippets, FilePages;
    var parts := PartsOfAll(lower, spec, info, files);
    GatheredIff(parts);
    forall i | 0 <= i < |files|
      ensures parts[i] == PartsOf(lower, spec, info, files[i]) && parts[i] in parts && files[i] in files
    {
    }
  }

  // ---------- Pages of a project ----------

  // No two collected pages of one project have the same slug.
  ghost predicate SlugsOnce(pages: seq<DocPage>) {
    forall m, n :: 0 <= m < n < |pages| && pages[m].project == pages[n].project ==> pages[m].slug != pages[n].slug
  }

  ghost predicate SlugsOnceIn(pages: seq<DocPage>, project: string) {
    forall m, n :: 0 <= m < n < |pages| && pages[m].project == pages[n].project == project ==>
      pages[m].slug != pages[n].slug
  }

  function SlugsOf(pages: seq<DocPage>): (r: seq<string>)
    ensures |r| == |pages| && forall i :: 0 <= i < |r| ==> r[i] == pages[i].slug
  {
    seq(|pages|, i requires 0 <= i < |pages| => pages[i].slug)
  }

  lemma {:induction false} ProjectSlugsOnce(pages: seq<DocPage>, project: string)
    ensures SlugsDistinct(PagesIn(pages, project)) <==> SlugsOnceIn(pages, project)
    ensures forall slug :: slug in SlugsOf(PagesIn(pages, project)) <==>
      exists p <- pages :: p.project == project && p.slug == slug
  {
    if pages != [] {
      var before, last := pages[..|pages| - 1], pages[|pages| - 1];
      assert pages == before + [last];
      ProjectSlugsOnce(before, project);
      var mine := PagesIn(before, project);
      if last.project == project {
        assert SlugsOf(mine + [last]) == SlugsOf(mine) + [last.slug];
        OneMoreSlug(mine, last);
        OneMorePage(before, last, project);
      } else {
        OtherPage(before, last, project);
      }
    }
  }

  lemma {:induction false} OneMoreSlug(mine: seq<DocPage>, last: DocPage)
    ensures SlugsDistinct(mine + [last]) <==> SlugsDistinct(mine) && last.slug !in SlugsOf(mine)
  {
    var all := mine + [last];
    assert forall k :: 0 <= k < |mine| ==> all[k] == mine[k];
    if SlugsDistinct(all) {
      forall k | 0 <= k < |mine|
        ensures SlugsOf(mine)[k] != last.slug
      {
        assert all[k].slug != all[|mine|].slug;
      }
    }
  }

  lemma {:induction false} OneMorePage(before: seq<DocPage>, last: DocPage, project: string)
    requires last.project == project
    ensures SlugsOnceIn(before + [last], project) <==>
      SlugsOnceIn(before, project) && !exists p <- before :: p.project == project && p.slug == last.slug
  {
    var all := before + [last];
    assert forall k :: 0 <= k < |before| ==> all[k] == before[k];
    if SlugsOnceIn(all, project) {
      forall k | 0 <= k < |before| && before[k].project == project
        ensures before[k].slug != last.slug
      {
        assert all[k].slug != all[|before|].slug;
      }
    }
  }

  lemma {:induction false} OtherPage(before: seq<DocPage>, last: DocPage, project: string)
    requires last.project != project
    ensures SlugsOnceIn(before + [last], project) <==> SlugsOnceIn(before, project)
  {
    var all := before + [last];
    assert forall k :: 0 <= k < |before| ==> all[k] == before[k];
  }

  // Sorting does not matter to whether slugs repeat.
  lemma {:induction false} SortedSlugsOnce(pages: seq<DocPage>, project: string)
    ensures SlugsDistinct(PagesIn(Sort(pages, PageLe), project)) <==> SlugsOnceIn(pages, project)
  {
    ProjectSlugsOnce(pages, project);
    PageOrder();
    SortSorts(pages, PageLe);
    var mine, sorted := PagesIn(pages, project), PagesIn(Sort(pages, PageLe), project);
    forall p
      ensures multiset(mine)[p] == multiset(sorted)[p]
    {
      PagesInCount(pages, project, p);
      PagesInCount(Sort(pages, PageLe), project, p);
    }
    assert multiset(mine) == multiset(sorted);
    ImagesPermuted(mine, sorted, SlugsOf(mine), SlugsOf(sorted));
    DistinctPermuted(SlugsOf(mine), SlugsOf(sorted));
    SlugsDistinctIs(mine);
    SlugsDistinctIs(sorted);
  }

  lemma {:induction false} SlugsDistinctIs(pages: seq<DocPage>)
    ensures SlugsDistinct(pages) <==> Distinct(SlugsOf(pages))
  {
  }

  lemma {:induction false} SlugsOnceIff(pages: seq<DocPage>, projects: seq<string>)
    requires forall p <- pages :: p.project in projects
    ensures SlugsOnce(pages) <==> forall project <- projects :: SlugsOnceIn(pages, project)
  {
    forall m, n | 0 <= m < n < |pages| && pages[m].project == pages[n].project &&
      forall project <- projects :: SlugsOnceIn(pages, project)
      ensures pages[m].slug != pages[n].slug
    {
      assert pages[m] in pages;
      assert SlugsOnceIn(pages, pages[m].project);
    }
  }

  // ---------- One source ----------

  // Listing the projects succeeds exactly when they are new and distinct and no slug repeats.
  lemma {:induction false} AddProjectsIff(l: Listing, projects: seq<ProjectSpec>, pages: seq<DocPage>, source: string)
    ensures AddProjects(l, projects, pages, source).Some? <==>
      && Distinct(ProjectSlugs(projects)) && (forall s <- ProjectSlugs(projects) :: s !in l.projects)
      && forall s <- ProjectSlugs(projects) :: SlugsDistinct(PagesIn(pages, s))
    decreases |projects|
  {
    hide PagesIn, WithDocs, DocEntries, SlugsDistinct, Distinct;
    if projects == [] {
      NoSlugs();
    } else {
      var before, last := projects[..|projects| - 1], projects[|projects| - 1];
      AddProjectsIff(l, before, pages, source);
      ListedProjects(l, before, pages, source);
      assert ProjectSlugs(projects) == ProjectSlugs(before) + [last.slug];
      DistinctSnoc(ProjectSlugs(before), last.slug);
      assert forall s :: s in ProjectSlugs(projects) <==> s in ProjectSlugs(before) || s == last.slug;
    }
  }

  lemma {:induction false} NoSlugs()
    ensures ProjectSlugs([]) == [] && Distinct(ProjectSlugs([]))
  {
  }

  // A source adds to a run exactly when its archive is in order, none of its topics and projects
  // was there before, and nothing of it comes twice.
  ghost predicate Fits(lower: Lowering, src: Input, variants: map<string, string>, projects: map<string, string>) {
    && IsLang(src.spec.lang)
    && var parts := Collected(lower, src.spec, InfoOf(src.spec.lang), src.files);
    && parts.Some?
    && TopicsFresh(variants, parts.value.snippets, src.spec.lang)
    && Distinct(ProjectSlugs(src.spec.projects)) && (forall s <- ProjectSlugs(src.spec.projects) :: s !in projects)
    && SlugsOnce(parts.value.pages)
  }

  lemma {:induction false} WalkFits(lower: Lowering, spec: SourceSpec, files: seq<File>, reg0: Reg)
    requires IsLang(spec.lang)
    ensures var w := Walked(lower, spec, InfoOf(spec.lang), files, reg0);
      var all := Collected(lower, spec, InfoOf(spec.lang), files);
      && (w.Some? <==> all.Some? && TopicsFresh(reg0.variants, all.value.snippets, spec.lang))
      && (w.Some? ==> w.value.1 == all.value.pages)
      && (w.Some? ==> w.value.0.variants.Keys == reg0.variants.Keys + KeysOf(VariantEntries(all.value.snippets, spec)))
  {
    var info := InfoOf(spec.lang);
    assert IsLangInfo(spec.lang, info);
    hide Collected, RegisterAll, TopicsFresh, TopicsShaped, InfoOf, IsLang, IsLangInfo;
    if Collected(lower, spec, info, files).Some? {
      CollectedShaped(lower, spec, info, files);
      RegisterAllIs(reg0, Collected(lower, spec, info, files).value.snippets, spec, info);
    }
  }

  lemma {:induction false} ListingFits(l: Listing, projects: seq<ProjectSpec>, pages: seq<DocPage>, source: string)
    requires forall p <- pages :: p.project in ProjectSlugs(projects)
    ensures AddProjects(l, projects, Sort(pages, PageLe), source).Some? <==>
      Distinct(ProjectSlugs(projects)) && (forall s <- ProjectSlugs(projects) :: s !in l.projects) && SlugsOnce(pages)
  {
    hide AddProjects, Sort, PagesIn, SlugsDistinct, SlugsOnce, SlugsOnceIn, Distinct;
    AddProjectsIff(l, projects, Sort(pages, PageLe), source);
    forall s | s in ProjectSlugs(projects)
      ensures SlugsDistinct(PagesIn(Sort(pages, PageLe), s)) <==> SlugsOnceIn(pages, s)
    {
      SortedSlugsOnce(pages, s);
    }
    SlugsOnceIff(pages, ProjectSlugs(projects));
  }

  lemma {:induction false} SourceFits(lower: Lowering, out: Output, src: Input)
    ensures AddSource(lower, out, src).Some? <==> Fits(lower, src, out.variants, out.projects)
    ensures AddSource(lower, out, src).Some? ==>
      AddSource(lower, out, src).value.variants.Keys == out.variants.Keys + VariantsOf(lower, src)
    ensures AddSource(lower, out, src).Some? ==> forall s ::
      s in AddSource(lower, out, src).value.projects <==> s in out.projects || s in ProjectSlugs(src.spec.projects)
  {
    hide Collected, AddProjects, Sort, TopicsFresh, SlugsOnce, InfoOf, Compact, Walked, Distinct;
    var spec := src.spec;
    if IsLang(spec.lang) {
      WalkFits(lower, spec, src.files, Reg(out.variants, out.snippetFiles, []));
      var all := Collected(lower, spec, InfoOf(spec.lang), src.files);
      if all.Some? {
        CollectedSlugs(lower, spec, InfoOf(spec.lang), src.files);
        var l0 := Listing(out.docFiles, out.projects, []);
        ListingFits(l0, spec.projects, all.value.pages, spec.name);
        ListedProjects(l0, spec.projects, Sort(all.value.pages, PageLe), spec.name);
      }
    }
  }

  // The topics an archive provides, and the keys of their variants
  function TopicsOf(lower: Lowering, src: Input): seq<string> {
    if !IsLang(src.spec.lang) then []
    else match Collected(lower, src.spec, InfoOf(src.spec.lang), src.files)
      case None => []
      case Some(parts) => Topics(parts.snippets)
  }

  ghost function VariantsOf(lower: Lowering, src: Input): set<string> {
    if !IsLang(src.spec.lang) then {}
    else match Collected(lower, src.spec, InfoOf(src.spec.lang), src.files)
      case None => {}
      case Some(parts) => KeysOf(VariantEntries(parts.snippets, src.spec))
  }

  lemma {:induction false} VariantsAreTopics(lower: Lowering, src: Input, key: string)
    ensures key in VariantsOf(lower, src) <==> exists t <- TopicsOf(lower, src) :: key == VariantKey(t, src.spec.lang)
    ensures forall t <- TopicsOf(lower, src) :: Markers.IsTopic(t)
  {
    hide Collected, VariantKey, Markers.IsTopic;
    if IsLang(src.spec.lang) && Collected(lower, src.spec, InfoOf(src.spec.lang), src.files).Some? {
      var snippets := Collected(lower, src.spec, InfoOf(src.spec.lang), src.files).value.snippets;
      CollectedShaped(lower, src.spec, InfoOf(src.spec.lang), src.files);
      var entries := VariantEntries(snippets, src.spec);
      forall k | 0 <= k < |snippets|
        ensures snippets[k] in snippets && entries[k] in entries && Topics(snippets)[k] in Topics(snippets)
        ensures entries[k].0 == VariantKey(Topics(snippets)[k], src.spec.lang)
      {
      }
    }
  }

  // ---------- The run ----------

  // A source that a run can take on its own
  ghost predicate SourceOk(lower: Lowering, src: Input) {
    && IsLang(src.spec.lang)
    && var parts := Collected(lower, src.spec, InfoOf(src.spec.lang), src.files);
    && parts.Some?
    && Distinct(Topics(parts.value.snippets)) && Distinct(ProjectSlugs(src.spec.projects))
    && SlugsOnce(parts.value.pages)
  }

  // Two sources with no topic in common for one language, and no project
  ghost predicate Compatible(lower: Lowering, a: Input, b: Input) {
    && (a.spec.lang == b.spec.lang ==> forall t <- TopicsOf(lower, b) :: t !in TopicsOf(lower, a))
    && forall s <- ProjectSlugs(b.spec.projects) :: s !in ProjectSlugs(a.spec.projects)
  }

  // The variants and projects are those of the sources.
  ghost predicate Knows(lower: Lowering, inputs: seq<Input>, variants: map<string, string>,
                        projects: map<string, string>)
  {
    && (forall key :: key in variants <==> exists src <- inputs :: key in VariantsOf(lower, src))
    && (forall s :: s in projects <==> exists src <- inputs :: s in ProjectSlugs(src.spec.projects))
  }

  lemma {:induction false} FreshIff(lower: Lowering, inputs: seq<Input>, src: Input, variants: map<string, string>,
                                    projects: map<string, string>)
    requires Knows(lower, inputs, variants, projects)
    ensures Fits(lower, src, variants, projects) <==>
      SourceOk(lower, src) && forall before <- inputs :: Compatible(lower, before, src)
  {
    if IsLang(src.spec.lang) && Collected(lower, src.spec, InfoOf(src.spec.lang), src.files).Some? {
      var snippets := Collected(lower, src.spec, InfoOf(src.spec.lang), src.files).value.snippets;
      hide Collected, VariantKey, VariantsOf, TopicsOf, Distinct, SlugsOnce, InfoOf;
      assert TopicsOf(lower, src) == Topics(snippets) by {
        TopicsOfIs(lower, src);
      }
      TopicsAreOf(snippets);
      forall t | t in Topics(snippets)
        ensures VariantKey(t, src.spec.lang) in variants <==>
          exists before <- inputs :: before.spec.lang == src.spec.lang && t in TopicsOf(lower, before)
      {
        TopicTaken(lower, inputs, src, variants, projects, t);
      }
    }
  }

  lemma {:induction false} TopicsOfIs(lower: Lowering, src: Input)
    requires IsLang(src.spec.lang) && Collected(lower, src.spec, InfoOf(src.spec.lang), src.files).Some?
    ensures TopicsOf(lower, src) == Topics(Collected(lower, src.spec, InfoOf(src.spec.lang), src.files).value.snippets)
  {
  }

  lemma {:induction false} TopicsAreOf(snippets: seq<Markers.Snippet>)
    ensures forall sn <- snippets :: sn.topic in Topics(snippets)
    ensures forall t <- Topics(snippets) :: exists sn <- snippets :: sn.topic == t
  {
    forall k | 0 <= k < |snippets|
      ensures snippets[k] in snippets && Topics(snippets)[k] == snippets[k].topic
      ensures snippets[k].topic in Topics(snippets)
    {
      assert Topics(snippets)[k] in Topics(snippets);
    }
  }

  // A topic's variant is known exactly when an earlier source of the language provides the topic.
  lemma {:induction false} TopicTaken(lower: Lowering, inputs: seq<Input>, src: Input, variants: map<string, string>,
                                      projects: map<string, string>, t: string)
    requires Knows(lower, inputs, variants, projects) && t in TopicsOf(lower, src)
    ensures VariantKey(t, src.spec.lang) in variants <==>
      exists before <- inputs :: before.spec.lang == src.spec.lang && t in TopicsOf(lower, before)
  {
    hide VariantKey, VariantsOf, TopicsOf, Markers.IsTopic;
    VariantsAreTopics(lower, src, "");
    var key := VariantKey(t, src.spec.lang);
    forall before | before in inputs
      ensures key in VariantsOf(lower, before) <==> before.spec.lang == src.spec.lang && t in TopicsOf(lower, before)
    {
      VariantsAreTopics(lower, before, key);
      forall u | u in TopicsOf(lower, before)
        ensures VariantKey(u, before.spec.lang) == key <==> u == t && before.spec.lang == src.spec.lang
      {
        TopicIsSegment(u);
        TopicIsSegment(t);
        if VariantKey(u, before.spec.lang) == key {
          VariantKeyInjective(u, before.spec.lang, t, src.spec.lang);
        }
      }
    }
  }

  lemma {:induction false} KnowsMore(lower: Lowering, inputs: seq<Input>, src: Input, before: Output, after: Output)
    requires Knows(lower, inputs, before.variants, before.projects)
    requires after.variants.Keys == before.variants.Keys + VariantsOf(lower, src)
    requires forall s :: s in after.projects <==> s in before.projects || s in ProjectSlugs(src.spec.projects)
    ensures Knows(lower, inputs + [src], after.variants, after.projects)
  {
    hide VariantsOf;
    assert forall x :: x in inputs + [src] <==> x in inputs || x == src;
    assert forall key :: key in after.variants <==> key in before.variants || key in VariantsOf(lower, src);
  }

  // A run succeeds exactly when every source is in order on its own and no two have a topic of the
  // same language or a project in common.
  lemma {:induction false} RunSucceedsIff(lower: Lowering, inputs: seq<Input>)
    ensures AddSources(lower, inputs).Some? <==>
      && (forall i :: 0 <= i < |inputs| ==> SourceOk(lower, inputs[i]))
      && (forall i, j :: 0 <= i < j < |inputs| ==> Compatible(lower, inputs[i], inputs[j]))
    ensures AddSources(lower, inputs).Some? ==>
      Knows(lower, inputs, AddSources(lower, inputs).value.variants, AddSources(lower, inputs).value.projects)
    decreases |inputs|
  {
    hide AddSource, SourceOk, Compatible, Knows, Fits, VariantsOf;
    if inputs == [] {
      NothingKnown(lower);
    } else {
      var n := |inputs| - 1;
      var before, src := inputs[..n], inputs[n];
      assert inputs == before + [src];
      RunSucceedsIff(lower, before);
      if AddSources(lower, before).Some? {
        var out := AddSources(lower, before).value;
        SourceFits(lower, out, src);
        FreshIff(lower, before, src, out.variants, out.projects);
        if AddSource(lower, out, src).Some? {
          KnowsMore(lower, before, src, out, AddSource(lower, out, src).value);
        }
      }
    }
  }

  lemma {:induction false} NothingKnown(lower: Lowering)
    ensures Knows(lower, [], NOTHING.variants, NOTHING.projects)
  {
  }
}
