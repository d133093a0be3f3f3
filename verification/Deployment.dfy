/**
From the archives to the readers: what the sync run writes is what the docs sync stores and
serves.
*/
module Deployment {
  import opened Text
  import opened Slug
  import opened Order
  import opened Manifests
  import opened SyncFiles
  import opened SyncRun
  import opened ArchiveOrder
  import opened DocFiles
  import opened DocStore
  import Admin
  import ArticleRuns
  import Conservation
  import DocSync
  import Convergence

  // ---------- Projects are declared once ----------

  // The k-th project of the i-th source is a place of the manifest.
  ghost predicate IsPlace(sources: seq<ManifestSource>, i: int, k: int) {
    0 <= i < |sources| && 0 <= k < |sources[i].projects|
  }

  // No project is listed at two places.
  ghost predicate ProjectsOnce(sources: seq<ManifestSource>) {
    forall i, k, j, l ::
      IsPlace(sources, i, k) && IsPlace(sources, j, l) && sources[i].projects[k].slug == sources[j].projects[l].slug ==>
      i == j && k == l
  }

  ghost predicate Declared(sources: seq<ManifestSource>, projects: map<string, string>) {
    forall i, k :: IsPlace(sources, i, k) ==> sources[i].projects[k].slug in projects
  }

  // The projects of one source are new and distinct.
  ghost predicate NewProjects(before: map<string, string>, after: map<string, string>, listed: seq<ManifestProject>) {
    && (forall p <- before :: p in after)
    && (forall k :: 0 <= k < |listed| ==> listed[k].slug !in before && listed[k].slug in after)
    && (forall j, k :: 0 <= j < k < |listed| ==> listed[j].slug != listed[k].slug)
  }

  lemma {:induction false} AddProjectsNew(l: Listing, projects: seq<ProjectSpec>, sorted: seq<DocPage>, source: string)
    requires AddProjects(l, projects, sorted, source).Some?
    ensures NewProjects(l.projects, AddProjects(l, projects, sorted, source).value.projects,
                        Conservation.ListedOf(projects, sorted))
    decreases |projects|
  {
    hide PagesIn, WithDocs, DocEntries;
    if projects != [] {
      var n := |projects| - 1;
      AddProjectsNew(l, projects[..n], sorted, source);
      var listed, before := Conservation.ListedOf(projects, sorted), Conservation.ListedOf(projects[..n], sorted);
      assert forall k :: 0 <= k < n ==> listed[k] == before[k];
    }
  }

  lemma {:induction false} StepIsNew(lower: Lowering, out: Output, src: Input, out': Output)
    requires Conservation.IsStep(lower, out, src, out')
    ensures |out'.sources| == |out.sources| + 1 && out'.sources[..|out.sources|] == out.sources
    ensures NewProjects(out.projects, out'.projects, out'.sources[|out.sources|].projects)
  {
    hide Collected, Sort, NewProjects;
    var l0 := Listing(out.docFiles, out.projects, []);
    var sorted := Sort(Collected(lower, src.spec, InfoOf(src.spec.lang), src.files).value.pages, PageLe);
    AddProjectsNew(l0, src.spec.projects, sorted, src.spec.name);
    Conservation.AddProjectsLists(l0, src.spec.projects, sorted, src.spec.name);
    assert l0.listed + Conservation.ListedOf(src.spec.projects, sorted) ==
      Conservation.ListedOf(src.spec.projects, sorted);
  }

  lemma {:induction false} OneMoreDeclared(sources: seq<ManifestSource>, s: ManifestSource, before: map<string, string>,
                                           after: map<string, string>)
    requires ProjectsOnce(sources) && Declared(sources, before) && NewProjects(before, after, s.projects)
    ensures ProjectsOnce(sources + [s]) && Declared(sources + [s], after)
  {
    var all, n := sources + [s], |sources|;
    forall i, k | IsPlace(all, i, k)
      ensures all[i].projects[k].slug in after
      ensures if i < n then all[i].projects[k].slug in before else i == n && all[i].projects[k].slug !in before
    {
      assert i < n ==> IsPlace(sources, i, k);
    }
    forall i, k, j, l | IsPlace(all, i, k) && IsPlace(all, j, l) && all[i].projects[k].slug == all[j].projects[l].slug
      ensures i == j && k == l
    {
      assert i < n <==> j < n;
      if i < n {
        assert IsPlace(sources, i, k) && IsPlace(sources, j, l);
      } else {
        assert s.projects[k].slug == s.projects[l].slug;
      }
    }
  }

  lemma {:induction false} TraceDeclares(lower: Lowering, inputs: seq<Input>, outs: seq<Output>, n: nat)
    requires Conservation.IsTrace(lower, inputs, outs) && n <= |inputs|
    ensures ProjectsOnce(outs[n].sources) && Declared(outs[n].sources, outs[n].projects)
  {
    hide Conservation.IsStep;
    if n > 0 {
      TraceDeclares(lower, inputs, outs, n - 1);
      Conservation.TraceStep(lower, inputs, outs, n - 1);
      StepIsNew(lower, outs[n - 1], inputs[n - 1], outs[n]);
      var k := |outs[n - 1].sources|;
      assert outs[n].sources == outs[n - 1].sources + [outs[n].sources[k]];
      OneMoreDeclared(outs[n - 1].sources, outs[n].sources[k], outs[n - 1].projects, outs[n].projects);
    }
  }

  // The manifest lists no project twice, neither in two sources nor in one.
  lemma {:induction false} ProjectsDeclaredOnce(lower: Lowering, inputs: seq<Input>)
    requires AddSources(lower, inputs).Some?
    ensures ProjectsOnce(AddSources(lower, inputs).value.sources)
  {
    hide AddSource;
    var outs := Conservation.TraceOf(lower, inputs);
    TraceDeclares(lower, inputs, outs, |inputs|);
  }

  // ---------- The docs sync of such a manifest ----------

  // Every listed file is there, and the docs sync fails only when a page does not render or its
  // project is not in the store.
  lemma {:induction false} SyncFailsOnlyOn(lower: Lowering, inputs: seq<Input>, t: Tables,
                                           render: (string, string) -> Option<string>, clock: nat -> Time)
    requires AddSources(lower, inputs).Some?
    ensures var out := AddSources(lower, inputs).value;
      var pages := DocSync.ManifestPages(out.sources);
      && (forall p <- pages :: p.doc.file in out.docFiles)
      && (DocSync.UpsertPages(t, DocSync.Content(out.docFiles, render), pages, clock).error == None <==>
            forall p <- pages :: render(out.docFiles[p.doc.file], p.lang).Some? && p.project in t.projects)
  {
    hide AddSources, DocSync.ManifestPages, DocSync.UpsertPages;
    var out := AddSources(lower, inputs).value;
    var pages, c := DocSync.ManifestPages(out.sources), DocSync.Content(out.docFiles, render);
    DocsListed(lower, inputs);
    forall p | p in pages
      ensures p.doc.file in out.docFiles
    {
      assert p.doc.file in ListedFiles(pages);
    }
    Convergence.SyncsIff(t, c, pages, clock);
    forall p | p in pages
      ensures Convergence.Syncable(t, c, p) <==>
        render(out.docFiles[p.doc.file], p.lang).Some? && p.project in t.projects
    {
    }
  }

  ghost predicate NoProjectDocs(t: Tables) {
    forall id <- t.documents :: !Convergence.IsProjectDoc(t.documents[id])
  }

  ghost predicate SlashFreeProjects(inputs: seq<Input>) {
    forall src <- inputs, p <- src.spec.projects :: Convergence.SlashFree(p.slug)
  }

  // The sync of a run's output leaves only listed docs pages exactly when its prune runs or there
  // are none to prune: whatever the projects are called when the store's docs slugs have no slash,
  // as those of every run have none, and for any store when the project slugs have none.
  lemma {:induction false} RunLeavesListed(lower: Lowering, inputs: seq<Input>, t: Tables,
                                           render: (string, string) -> Option<string>,
                                           clock: nat -> Time, nilIsNull: bool)
    requires AddSources(lower, inputs).Some? && Valid(t)
    requires Convergence.SlashFreeDocs(t) || SlashFreeProjects(inputs)
    requires var out := AddSources(lower, inputs).value;
      DocSync.UpsertPages(t, DocSync.Content(out.docFiles, render), DocSync.ManifestPages(out.sources), clock).error ==
        None
    ensures var out := AddSources(lower, inputs).value;
      var c, pages := DocSync.Content(out.docFiles, render), DocSync.ManifestPages(out.sources);
      Convergence.OnlyListedDocs(DocSync.AfterSync(t, c, pages, clock, nilIsNull), pages) <==>
        DocSync.PruneRuns(pages, nilIsNull) || NoProjectDocs(t)
  {
    hide AddSources, DocSync.ManifestPages, DocSync.UpsertPages, Valid, DocSync.AfterSync, Convergence.OnlyListedDocs,
      Convergence.SlashFreeDocs,
      Convergence.NothingStaleKept, SlashFreeProjects;
    var out := AddSources(lower, inputs).value;
    var c, pages := DocSync.Content(out.docFiles, render), DocSync.ManifestPages(out.sources);
    RunSlugsSlashFree(lower, inputs);
    Convergence.OnlyListedExactly(t, c, pages, clock, nilIsNull);
    if !DocSync.PruneRuns(pages, nilIsNull) {
      NothingListed(t, pages, nilIsNull);
    } else if Convergence.SlashFreeDocs(t) {
      Convergence.SlashFreeKeepsNoneStale(t, pages, nilIsNull);
    } else {
      Convergence.SlashFreeIsUnambiguous(t.projects, pages);
      Convergence.UnambiguousKeepsNoneStale(t, pages, nilIsNull);
    }
  }

  lemma {:induction false} NothingListed(t: Tables, pages: seq<DocSync.Page>, nilIsNull: bool)
    requires !DocSync.PruneRuns(pages, nilIsNull)
    ensures Convergence.NothingStaleKept(t, pages, nilIsNull) <==> NoProjectDocs(t)
  {
    assert forall row :: !Convergence.Listed(t, pages, row);
  }

  // A run's docs slugs have no slash.
  lemma {:induction false} RunSlugsSlashFree(lower: Lowering, inputs: seq<Input>)
    requires AddSources(lower, inputs).Some?
    ensures var pages := DocSync.ManifestPages(AddSources(lower, inputs).value.sources);
      Convergence.SlashFreeSlugs(pages) && (SlashFreeProjects(inputs) ==> Convergence.SlashFreePages(pages))
  {
    hide AddSources, DocSync.ManifestPages, SlashFreeProjects, Convergence.SlashFree;
    var pages := DocSync.ManifestPages(AddSources(lower, inputs).value.sources);
    forall p | p in pages
      ensures Convergence.SlashFree(p.doc.slug) && (SlashFreeProjects(inputs) ==> Convergence.SlashFree(p.project))
    {
      SlashFreeListed(lower, inputs, p);
    }
  }

  lemma {:induction false} SlashFreeListed(lower: Lowering, inputs: seq<Input>, p: DocSync.Page)
    requires AddSources(lower, inputs).Some? && p in DocSync.ManifestPages(AddSources(lower, inputs).value.sources)
    ensures Convergence.SlashFree(p.doc.slug) && (SlashFreeProjects(inputs) ==> Convergence.SlashFree(p.project))
  {
    hide AddSources, RunWrites, DocFile, PairsDistinct, Collected;
    var ws := RunWrites(lower, inputs);
    RunIsWrites(lower, inputs);
    var k :| 0 <= k < |ws| && ListedPages(ws)[k] == p;
    assert ws[k] in ws;
    WritesAreCollected(lower, inputs, ws[k]);
    var i :| IsCollected(lower, inputs, i, ws[k].page) && ws[k].lang == inputs[i].spec.lang;
    var spec := inputs[i].spec;
    Conservation.CollectedSlugs(lower, spec, InfoOf(spec.lang), inputs[i].files);
    var m :| 0 <= m < |spec.projects| && ProjectSlugs(spec.projects)[m] == ws[k].page.project;
    assert inputs[i] in inputs && spec.projects[m] in spec.projects;
  }

  // ---------- From an archive to a reader ----------

  // The reader finds one row for the page, with the page's title and body and its rendering.
  ghost predicate ServedAs(t: Tables, page: DocPage, html: Option<string>) {
    exists id :: DocIds(t, page.project, page.slug) == {id} && id in t.documents &&
      ShowsPage(t.documents[id], page, html)
  }

  ghost predicate ShowsPage(row: Row, page: DocPage, html: Option<string>) {
    row.title == page.title && row.bodyMD == page.body && Some(row.bodyHTML) == html
  }

  // The page is the last with its project and slug that the docs sync visits.
  ghost predicate IsVisitedLast(pages: seq<DocSync.Page>, n: nat, page: DocPage, lang: string) {
    && Convergence.IsLastOf(pages, n, page.project, page.slug)
    && pages[n].lang == lang && pages[n].doc.title == page.title &&
      pages[n].doc.file == DocFile(page.project, page.slug)
  }

  lemma {:induction false} CollectedIsVisited(lower: Lowering, inputs: seq<Input>, i: nat, page: DocPage)
      returns (n: nat)
    requires AddSources(lower, inputs).Some? && IsCollected(lower, inputs, i, page)
    ensures IsVisitedLast(DocSync.ManifestPages(AddSources(lower, inputs).value.sources), n, page, inputs[i].spec.lang)
  {
    hide AddSources, RunWrites, DocFile, DocSync.ManifestPages, IsSlug;
    n := WrittenAt(lower, inputs, i, page);
    RunIsWrites(lower, inputs);
  }

  lemma {:induction false} VisitedIsServed(t: Tables, c: DocSync.Content, pages: seq<DocSync.Page>, clock: nat -> Time,
                                           nilIsNull: bool, n: nat, page: DocPage, lang: string)
    requires Valid(t) && Convergence.PlainDocs(t)
    requires DocSync.UpsertPages(t, c, pages, clock).error == None && IsVisitedLast(pages, n, page, lang)
    requires DocFile(page.project, page.slug) in c.files
    ensures ServedAs(DocSync.AfterSync(t, c, pages, clock, nilIsNull), page, c.render(page.body, lang)) <==>
      BodyHeld(c.files, page)
  {
    hide DocSync.UpsertPages, DocSync.AfterSync, Valid, Convergence.PlainDocs, DocIds, DocFile;
    Convergence.SyncedDocsServed(t, c, pages, clock, nilIsNull, page.project, page.slug);
    var r := DocSync.AfterSync(t, c, pages, clock, nilIsNull);
    assert Convergence.IsLastOf(pages, n, page.project, page.slug);
    var id :| Convergence.Serves(r, page.project, page.slug, id, c, pages[n]);
    assert ShowsPage(r.documents[id], page, c.render(page.body, lang)) <==> BodyHeld(c.files, page);
    forall other | DocIds(r, page.project, page.slug) == {other}
      ensures other == id
    {
      assert other in {id};
    }
  }

  // After a sync run and a docs sync that both succeed, looking up a collected page's project and
  // slug finds exactly that page when its docs file holds its body; and it does when no other
  // project has a page with the same file.
  lemma {:induction false} ArchiveReachesReaders(lower: Lowering, inputs: seq<Input>, i: nat, page: DocPage,
                                                 t: Tables, render: (string, string) -> Option<string>,
                                                   clock: nat -> Time, nilIsNull: bool)
    requires AddSources(lower, inputs).Some? && IsCollected(lower, inputs, i, page)
    requires Valid(t) && Convergence.PlainDocs(t)
    requires var out := AddSources(lower, inputs).value;
      DocSync.UpsertPages(t, DocSync.Content(out.docFiles, render), DocSync.ManifestPages(out.sources), clock).error ==
        None
    ensures var out := AddSources(lower, inputs).value;
      var r := DocSync.AfterSync(t, DocSync.Content(out.docFiles, render), DocSync.ManifestPages(out.sources), clock,
                                 nilIsNull);
      && (ServedAs(r, page, render(page.body, inputs[i].spec.lang)) <==> BodyHeld(out.docFiles, page))
      && (FileIsOwn(lower, inputs, page) ==> ServedAs(r, page, render(page.body, inputs[i].spec.lang)))
  {
    hide AddSources, Collected, DocSync.ManifestPages, DocSync.UpsertPages, DocSync.AfterSync, Valid,
      Convergence.PlainDocs, ServedAs,
      FileIsOwn, DocFile, BodyHeld;
    var out := AddSources(lower, inputs).value;
    var pages, c := DocSync.ManifestPages(out.sources), DocSync.Content(out.docFiles, render);
    var n := CollectedIsVisited(lower, inputs, i, page);
    SyncFailsOnlyOn(lower, inputs, t, render, clock);
    assert pages[n] in pages;
    VisitedIsServed(t, c, pages, clock, nilIsNull, n, page, inputs[i].spec.lang);
    if FileIsOwn(lower, inputs, page) {
      OwnFileHoldsBody(lower, inputs, i, page);
    }
  }

  // ---------- After every run of the site ----------

  // Whatever requests and syncs of slash-free pages a store has seen since it was empty, syncing
  // the output of a sync run makes it serve each collected page whose docs file holds its body, and,
  // serve no docs page that is not listed.
  lemma {:induction false} SiteServesArchives(lower: Lowering, inputs: seq<Input>, i: nat, page: DocPage,
                                              site: Admin.Site, projects: map<string, int>,
                                                events: seq<(ArticleRuns.Event, Time)>,
                                              render: (string, string) -> Option<string>, clock: nat -> Time,
                                                nilIsNull: bool)
    requires AddSources(lower, inputs).Some? && IsCollected(lower, inputs, i, page)
    requires Convergence.InjectiveIds(projects) && ArticleRuns.UpsertsSlashFree(events)
    requires var t, out := ArticleRuns.Run(ArticleRuns.Empty(projects), site, events).tables,
      AddSources(lower, inputs).value;
      DocSync.UpsertPages(t, DocSync.Content(out.docFiles, render), DocSync.ManifestPages(out.sources), clock).error ==
        None
    ensures var t, out := ArticleRuns.Run(ArticleRuns.Empty(projects), site, events).tables,
      AddSources(lower, inputs).value;
      var c, pages := DocSync.Content(out.docFiles, render), DocSync.ManifestPages(out.sources);
      var r := DocSync.AfterSync(t, c, pages, clock, nilIsNull);
      && (ServedAs(r, page, render(page.body, inputs[i].spec.lang)) <==> BodyHeld(out.docFiles, page))
      && (FileIsOwn(lower, inputs, page) ==> ServedAs(r, page, render(page.body, inputs[i].spec.lang)))
      && Convergence.OnlyListedDocs(r, pages)
  {
    hide AddSources, IsCollected, DocSync.ManifestPages, DocSync.UpsertPages, DocSync.AfterSync, ArticleRuns.Run,
      ServedAs, FileIsOwn, BodyHeld,
      Convergence.OnlyListedDocs;
    var s := ArticleRuns.Empty(projects);
    ArticleRuns.EmptyStoreGood(site, projects);
    ArticleRuns.RunKeeps(site, s, events);
    ArticleRuns.RunKeepsSlashFree(site, s, events);
    var t := ArticleRuns.Run(s, site, events).tables;
    ArchiveReachesReaders(lower, inputs, i, page, t, render, clock, nilIsNull);
    RunLeavesListed(lower, inputs, t, render, clock, nilIsNull);
    CollectedRunsPrune(lower, inputs, i, page, nilIsNull);
  }

  lemma {:induction false} CollectedRunsPrune(lower: Lowering, inputs: seq<Input>, i: nat, page: DocPage,
                                              nilIsNull: bool)
    requires AddSources(lower, inputs).Some? && IsCollected(lower, inputs, i, page)
    ensures DocSync.PruneRuns(DocSync.ManifestPages(AddSources(lower, inputs).value.sources), nilIsNull)
  {
    hide AddSources, IsCollected, DocSync.ManifestPages;
    var n := CollectedIsVisited(lower, inputs, i, page);
  }

  // The upserts of a docs sync of a run's output are such events.
  lemma {:induction false} RunSyncsSlashFree(lower: Lowering, inputs: seq<Input>, t: Tables, c: DocSync.Content,
                                             clock: nat -> Time)
    requires AddSources(lower, inputs).Some?
    ensures ArticleRuns.UpsertsSlashFree(ArticleRuns.UpsertEvents(t, c,
        DocSync.ManifestPages(AddSources(lower, inputs).value.sources), clock))
  {
    hide AddSources, DocSync.ManifestPages;
    RunSlugsSlashFree(lower, inputs);
    ArticleRuns.SyncUpserts(t, c, DocSync.ManifestPages(AddSources(lower, inputs).value.sources), clock);
  }
}
