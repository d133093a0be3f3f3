/**
Nothing is lost or repeated in a successful sync run: its snippet files are the topics its
manifest lists, and its docs files the pages its manifest lists.
*/
module Conservation {
  import opened Text
  import opened Slug
  import opened Order
  import opened Manifests
  import opened SyncFiles
  import opened SyncRun
  import opened ArchiveOrder

  ghost predicate Increasing(xs: seq<string>) {
    forall i, j :: 0 <= i < j < |xs| ==> StrLt(xs[i], xs[j])
  }

  // ---------- Topics ----------

  // Topics without repeats are sorted strictly, and compacting removes none.
  lemma {:induction false} TopicsListed(topics: seq<string>)
    requires Distinct(topics)
    ensures var listed := Compact(Sort(topics, StrLe));
      Increasing(listed) && multiset(listed) == multiset(topics) && |listed| == |topics|
  {
    StrOrder();
    SortSorts(topics, StrLe);
    DistinctPermuted(topics, Sort(topics, StrLe));
    CompactKeeps(Sort(topics, StrLe));
    SameLength(Sort(topics, StrLe), topics);
  }

  // ---------- Pages of a project ----------

  lemma {:induction false} PagesInCount(pages: seq<DocPage>, project: string, p: DocPage)
    ensures multiset(PagesIn(pages, project))[p] == if p.project == project then multiset(pages)[p] else 0
  {
    if pages != [] {
      PagesInCount(pages[..|pages| - 1], project, p);
      assert pages == pages[..|pages| - 1] + [pages[|pages| - 1]];
    }
  }

  lemma {:induction false} PagesInMembers(pages: seq<DocPage>, project: string)
    ensures forall p :: p in PagesIn(pages, project) <==> p in pages && p.project == project
  {
    if pages != [] {
      PagesInMembers(pages[..|pages| - 1], project);
      assert pages == pages[..|pages| - 1] + [pages[|pages| - 1]];
    }
  }

  lemma {:induction false} PagesInSorted(pages: seq<DocPage>, project: string)
    requires IsSorted(pages, PageLe)
    ensures IsSorted(PagesIn(pages, project), PageLe)
  {
    if pages != [] {
      var before, last := pages[..|pages| - 1], pages[|pages| - 1];
      PagesInSorted(before, project);
      PagesInMembers(before, project);
      var mine := PagesIn(before, project);
      forall i | 0 <= i < |mine|
        ensures PageLe(mine[i], last)
      {
        assert mine[i] in before;
        var k :| 0 <= k < |before| && before[k] == mine[i];
        assert pages[k] == mine[i];
      }
    }
  }

  function Sources(pages: seq<DocPage>): (r: seq<string>)
  {
    seq(|pages|, i requires 0 <= i < |pages| => pages[i].source)
  }

  // Pages have slugs, and pages of the same file the same one.
  ghost predicate SlugsFromNames(pages: seq<DocPage>) {
    && (forall p <- pages :: IsSlug(p.slug))
    && (forall p <- pages, q <- pages :: p.source == q.source ==> p.slug == q.slug)
  }

  // mine is the pages of one project, each as often as it was collected, in increasing source order.
  ghost predicate IsProjectList(pages: seq<DocPage>, project: string, mine: seq<DocPage>) {
    && Increasing(Sources(mine)) && SlugsDistinct(mine)
    && forall p :: multiset(mine)[p] == if p.project == project then multiset(pages)[p] else 0
  }

  lemma {:induction false} ProjectListed(pages: seq<DocPage>, project: string)
    requires SlugsFromNames(pages) && SlugsDistinct(PagesIn(Sort(pages, PageLe), project))
    ensures IsProjectList(pages, project, PagesIn(Sort(pages, PageLe), project))
  {
    var sorted := Sort(pages, PageLe);
    PageOrder();
    SortSorts(pages, PageLe);
    PagesInSorted(sorted, project);
    PagesInMembers(sorted, project);
    var mine := PagesIn(sorted, project);
    forall i, j | 0 <= i < j < |mine|
      ensures StrLt(mine[i].source, mine[j].source)
    {
      assert mine[i] in sorted && mine[j] in sorted;
      assert mine[i] in multiset(sorted) && mine[j] in multiset(sorted);
      assert mine[i] in pages && mine[j] in pages;
      assert PageLe(mine[i], mine[j]);
      assert mine[i].slug != mine[j].slug;
    }
    forall p
      ensures multiset(mine)[p] == if p.project == project then multiset(pages)[p] else 0
    {
      PagesInCount(sorted, project, p);
    }
  }

  lemma {:induction false} CollectedSlugs(lower: Lowering, spec: SourceSpec, info: LangInfo, files: seq<File>)
    requires Collected(lower, spec, info, files).Some?
    ensures SlugsFromNames(Collected(lower, spec, info, files).value.pages)
    ensures forall p <- Collected(lower, spec, info, files).value.pages :: p.project in ProjectSlugs(spec.projects)
  {
    hide IsSlug;
    var pages := Collected(lower, spec, info, files).value.pages;
    forall p | p in pages
      ensures p.slug == DocSlug(lower, p.source) && IsSlug(p.slug) && p.project in ProjectSlugs(spec.projects)
    {
      var proj, f := CollectedPageFrom(lower, spec, info, files, p);
      PageIsNamed(lower, proj, f);
      var i :| 0 <= i < |spec.projects| && spec.projects[i] == proj;
      assert ProjectSlugs(spec.projects)[i] == proj.slug;
    }
  }

  // ---------- One source ----------

  // What the manifest lists for a source is what its archive holds.
  ghost predicate Listed(lower: Lowering, src: Input, ms: ManifestSource) {
    && IsLang(src.spec.lang)
    && var parts := Collected(lower, src.spec, InfoOf(src.spec.lang), src.files);
    && parts.Some?
    && ms.name == src.spec.name && ms.ref == src.spec.ref && ms.commit == src.commit && ms.lang == src.spec.lang
    && Increasing(ms.topics) && multiset(ms.topics) == multiset(Topics(parts.value.snippets))
    && ProjectsListed(src.spec.projects, parts.value.pages, ms.projects)
  }

  ghost predicate ProjectsListed(projects: seq<ProjectSpec>, pages: seq<DocPage>, listed: seq<ManifestProject>) {
    && |listed| == |projects| && Distinct(ProjectSlugs(projects))
    && (forall p <- pages :: p.project in ProjectSlugs(projects))
    && forall k :: 0 <= k < |projects| ==> ProjectIs(projects[k].slug, pages, listed[k])
  }

  ghost predicate ProjectIs(project: string, pages: seq<DocPage>, listed: ManifestProject) {
    listed.slug == project && exists mine ::
      IsProjectList(pages, project, mine) && listed.docs == DocEntries(project, mine)
  }

  function ListedOf(projects: seq<ProjectSpec>, sorted: seq<DocPage>): (r: seq<ManifestProject>)
  {
    seq(|projects|, k requires 0 <= k < |projects| =>
      ManifestProject(projects[k].slug, DocEntries(projects[k].slug, PagesIn(sorted, projects[k].slug))))
  }

  lemma {:induction false} AddProjectsLists(l: Listing, projects: seq<ProjectSpec>, sorted: seq<DocPage>,
                                            source: string)
    ensures var r := AddProjects(l, projects, sorted, source);
      r.Some? ==> r.value.listed == l.listed + ListedOf(projects, sorted) && forall p <- projects ::
        SlugsDistinct(PagesIn(sorted, p.slug))
    decreases |projects|
  {
    var r := AddProjects(l, projects, sorted, source);
    if projects == [] {
      assert l.listed + ListedOf(projects, sorted) == l.listed;
    } else if r.Some? {
      var before, p := projects[..|projects| - 1], projects[|projects| - 1];
      assert projects == before + [p];
      AddProjectsLists(l, before, sorted, source);
      var entry := ManifestProject(p.slug, DocEntries(p.slug, PagesIn(sorted, p.slug)));
      assert ListedOf(projects, sorted) == ListedOf(before, sorted) + [entry];
      assert l.listed + ListedOf(before, sorted) + [entry] == l.listed + (ListedOf(before, sorted) + [entry]);
    }
  }

  lemma {:induction false} ProjectsAreListed(l: Listing, projects: seq<ProjectSpec>, pages: seq<DocPage>,
                                             source: string)
    requires l.listed == [] && AddProjects(l, projects, Sort(pages, PageLe), source).Some?
    requires SlugsFromNames(pages) && forall p <- pages :: p.project in ProjectSlugs(projects)
    ensures ProjectsListed(projects, pages, AddProjects(l, projects, Sort(pages, PageLe), source).value.listed)
  {
    var sorted := Sort(pages, PageLe);
    AddProjectsLists(l, projects, sorted, source);
    ListedProjects(l, projects, sorted, source);
    assert l.listed + ListedOf(projects, sorted) == ListedOf(projects, sorted);
    forall k | 0 <= k < |projects|
      ensures ProjectIs(projects[k].slug, pages, ListedOf(projects, sorted)[k])
    {
      assert projects[k] in projects;
      ProjectListed(pages, projects[k].slug);
    }
  }

  lemma {:induction false} WalkedTopics(lower: Lowering, spec: SourceSpec, info: LangInfo, files: seq<File>, reg0: Reg)
    requires Walked(lower, spec, info, files, reg0).Some? && reg0.topics == [] && IsLangInfo(spec.lang, info)
    ensures var listed := Compact(Sort(Walked(lower, spec, info, files, reg0).value.0.topics, StrLe));
      Increasing(listed) && multiset(listed) == multiset(Topics(Collected(lower, spec, info, files).value.snippets))
  {
    var snippets := Collected(lower, spec, info, files).value.snippets;
    CollectedShaped(lower, spec, info, files);
    RegisterAllIs(reg0, snippets, spec, info);
    assert reg0.topics + Topics(snippets) == Topics(snippets);
    TopicsListed(Topics(snippets));
  }

  ghost predicate IsStep(lower: Lowering, out: Output, src: Input, out': Output) {
    AddSource(lower, out, src) == Some(out')
  }

  lemma {:induction false} SourceIsListed(lower: Lowering, out: Output, src: Input, out': Output)
    requires IsStep(lower, out, src, out')
    ensures |out'.sources| == |out.sources| + 1 && out'.sources[..|out.sources|] == out.sources
    ensures Listed(lower, src, out'.sources[|out.sources|])
  {
    var info, reg0, l0 := InfoOf(src.spec.lang), Reg(out.variants, out.snippetFiles, []),
      Listing(out.docFiles, out.projects, []);
    WalkedTopics(lower, src.spec, info, src.files, reg0);
    CollectedSlugs(lower, src.spec, info, src.files);
    ProjectsAreListed(l0, src.spec.projects, Walked(lower, src.spec, info, src.files, reg0).value.1, src.spec.name);
  }

  // ---------- All sources ----------

  // The outputs before the first source, after it, after the second, and so on
  ghost predicate IsTrace(lower: Lowering, inputs: seq<Input>, outs: seq<Output>) {
    && |outs| == |inputs| + 1 && outs[0] == NOTHING
    && forall k :: 0 <= k < |inputs| ==> StepAt(lower, inputs, outs, k)
  }

  ghost predicate StepAt(lower: Lowering, inputs: seq<Input>, outs: seq<Output>, k: int) {
    0 <= k < |inputs| && k + 1 < |outs| && IsStep(lower, outs[k], inputs[k], outs[k + 1])
  }

  lemma {:induction false} TraceOf(lower: Lowering, inputs: seq<Input>) returns (outs: seq<Output>)
    requires AddSources(lower, inputs).Some?
    ensures IsTrace(lower, inputs, outs) && outs[|inputs|] == AddSources(lower, inputs).value
    decreases |inputs|
  {
    hide AddSource;
    if inputs == [] {
      outs := [NOTHING];
    } else {
      var n := |inputs| - 1;
      var front := TraceOf(lower, inputs[..n]);
      outs := front + [AddSources(lower, inputs).value];
      assert IsStep(lower, outs[n], inputs[n], outs[n + 1]);
      forall k | 0 <= k < n
        ensures StepAt(lower, inputs, outs, k)
      {
        assert StepAt(lower, inputs[..n], front, k);
      }
    }
  }

  lemma {:induction false} TraceStep(lower: Lowering, inputs: seq<Input>, outs: seq<Output>, k: nat)
    requires IsTrace(lower, inputs, outs) && k < |inputs|
    ensures IsStep(lower, outs[k], inputs[k], outs[k + 1])
  {
    assert StepAt(lower, inputs, outs, k);
  }

  lemma {:induction false} TraceListsEverything(lower: Lowering, inputs: seq<Input>, outs: seq<Output>, n: nat, i: nat)
    requires IsTrace(lower, inputs, outs) && n <= |inputs|
    ensures |outs[n].sources| == n && (i < n ==> Listed(lower, inputs[i], outs[n].sources[i]))
    decreases n
  {
    hide IsStep, Listed;
    if n > 0 {
      TraceListsEverything(lower, inputs, outs, n - 1, i);
      TraceStep(lower, inputs, outs, n - 1);
      SourceIsListed(lower, outs[n - 1], inputs[n - 1], outs[n]);
      if i < n - 1 {
        assert outs[n].sources[i] == outs[n].sources[..n - 1][i];
      }
    }
  }

  // The manifest has every source in order, and lists what its archive holds: its topics, and for
  // each of its projects the pages, each once and in the order of their file names.
  lemma {:induction false} RunListsEverything(lower: Lowering, inputs: seq<Input>, i: nat)
    requires AddSources(lower, inputs).Some? && i < |inputs|
    ensures var sources := AddSources(lower, inputs).value.sources;
      |sources| == |inputs| && Listed(lower, inputs[i], sources[i])
  {
    var outs := TraceOf(lower, inputs);
    TraceListsEverything(lower, inputs, outs, |inputs|, i);
  }
}
