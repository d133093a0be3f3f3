/**
The docs files of a successful sync run: they are the pages written one after another, those the
manifest lists; and there is one for each listed page exactly when no two projects whose
directories are the same once cleaned have a page with the same slug.
*/
module DocFiles {
  import opened Text
  import opened Slug
  import opened Paths
  import opened Order
  import opened Entries
  import opened Manifests
  import opened SyncFiles
  import opened SyncRun
  import opened ArchiveOrder
  import opened Conservation
  import DocSync
  import FrontMatter

  // ---------- The files of two pages ----------

  // The directory of a project's docs files
  function DocDir(project: string): string {
    JoinPath(["docs", project])
  }

  lemma {:induction false} SlugFileIsSegment(slug: string)
    requires IsSlug(slug)
    ensures IsSegment(slug + ".md")
  {
    assert forall i :: 0 <= i < |slug| ==> IsSlugChar(slug[i]);
    assert (slug + ".md")[|slug|..] == ".md";
  }

  // The file of a page whose project is a plain name
  lemma {:induction false} DocFileIs(project: string, slug: string)
    requires IsSegment(project) && IsSlug(slug)
    ensures DocFile(project, slug) == "docs/" + project + "/" + slug + ".md"
  {
    SlugFileIsSegment(slug);
    JoinSegments("docs", project, slug + ".md");
  }

  // Two pages have the same file exactly when their slugs are the same and their projects'
  // directories are, once cleaned.
  lemma {:induction false} DocFileSameIff(project: string, slug: string, project': string, slug': string)
    requires IsSlug(slug) && IsSlug(slug')
    ensures DocFile(project, slug) == DocFile(project', slug') <==> DocDir(project) == DocDir(project') && slug == slug'
  {
    SlugFileIsSegment(slug);
    SlugFileIsSegment(slug');
    SameFile("docs", project, slug + ".md", project', slug' + ".md");
    assert slug == (slug + ".md")[..|slug|] && slug' == (slug' + ".md")[..|slug'|];
  }

  // A leading dot makes another project with the same directory.
  lemma {:induction false} DottedProjectCollides(project: string, slug: string)
    requires IsSlug(slug)
    ensures DocDir("./" + project) == DocDir(project) && DocFile("./" + project, slug) == DocFile(project, slug)
  {
    DottedDir("docs", project);
    DocFileSameIff("./" + project, slug, project, slug);
  }

  // ---------- The pages a run writes ----------

  // A page with the language of its source
  datatype Written = Written(lang: string, page: DocPage)

  function ProjectWrites(lang: string, pages: seq<DocPage>): (r: seq<Written>)
    ensures |r| == |pages| && forall i :: 0 <= i < |r| ==> r[i] == Written(lang, pages[i])
  {
    seq(|pages|, i requires 0 <= i < |pages| => Written(lang, pages[i]))
  }

  // Project by project, each project's pages in navigation order
  function SourceWrites(lang: string, projects: seq<ProjectSpec>, sorted: seq<DocPage>): seq<Written> {
    if projects == [] then []
    else
      var before, last := projects[..|projects| - 1], projects[|projects| - 1];
      SourceWrites(lang, before, sorted) + ProjectWrites(lang, PagesIn(sorted, last.slug))
  }

  function InputWrites(lower: Lowering, src: Input): seq<Written> {
    if !IsLang(src.spec.lang) then []
    else match Collected(lower, src.spec, InfoOf(src.spec.lang), src.files)
      case None => []
      case Some(parts) => SourceWrites(src.spec.lang, src.spec.projects, Sort(parts.pages, PageLe))
  }

  function RunWrites(lower: Lowering, inputs: seq<Input>): seq<Written> {
    if inputs == [] then [] else RunWrites(lower, inputs[..|inputs| - 1]) + InputWrites(lower, inputs[|inputs| - 1])
  }

  // Each page's body under its file
  function FileEntries(ws: seq<Written>): (r: seq<Entry>)
    ensures |r| == |ws| && forall i :: 0 <= i < |r| ==>
      r[i] == (DocFile(ws[i].page.project, ws[i].page.slug), ws[i].page.body)
  {
    seq(|ws|, i requires 0 <= i < |ws| => (DocFile(ws[i].page.project, ws[i].page.slug), ws[i].page.body))
  }

  // The manifest's entry for a page
  function ListedPage(w: Written): DocSync.Page {
    var p := w.page;
    DocSync.Page(w.lang, p.project, ManifestDoc(p.slug, p.title, DocFile(p.project, p.slug), p.source))
  }

  function ListedPages(ws: seq<Written>): (r: seq<DocSync.Page>)
    ensures |r| == |ws| && forall i :: 0 <= i < |r| ==> r[i] == ListedPage(ws[i])
  {
    seq(|ws|, i requires 0 <= i < |ws| => ListedPage(ws[i]))
  }

  // No project has two pages with the same slug.
  ghost predicate PairsDistinct(ws: seq<Written>) {
    forall i, j :: 0 <= i < j < |ws| && ws[i].page.project == ws[j].page.project ==> ws[i].page.slug != ws[j].page.slug
  }

  ghost predicate ProjectsAmong(ws: seq<Written>, projects: map<string, string>) {
    forall w <- ws :: w.page.project in projects
  }

  ghost predicate NoProjectAmong(ws: seq<Written>, projects: map<string, string>) {
    forall w <- ws :: w.page.project !in projects
  }

  lemma {:induction false} PairsAppend(a: seq<Written>, b: seq<Written>, projects: map<string, string>)
    requires PairsDistinct(a) && PairsDistinct(b) && ProjectsAmong(a, projects) && NoProjectAmong(b, projects)
    ensures PairsDistinct(a + b)
  {
    assert forall i :: 0 <= i < |a| ==> a[i] in a && a[i].page.project in projects;
    assert forall j :: 0 <= j < |b| ==> b[j] in b && b[j].page.project !in projects;
  }

  // ---------- One source ----------

  lemma {:induction false} ProjectWritesAre(lang: string, project: string, sorted: seq<DocPage>)
    ensures var mine := PagesIn(sorted, project);
      && FileEntries(ProjectWrites(lang, mine)) == BodyEntries(project, mine)
      && ListedPages(ProjectWrites(lang, mine)) == DocSync.ProjectPages(lang, project, DocEntries(project, mine))
      && (SlugsDistinct(mine) ==> PairsDistinct(ProjectWrites(lang, mine)))
      && forall w <- ProjectWrites(lang, mine) :: w.page.project == project
  {
    hide DocFile, PagesIn;
    PagesInMembers(sorted, project);
    var mine := PagesIn(sorted, project);
    forall i | 0 <= i < |mine|
      ensures mine[i].project == project
    {
      assert mine[i] in mine;
    }
  }

  // Listing the projects of a source writes its pages.
  lemma {:induction false} SourceFiles(l: Listing, projects: seq<ProjectSpec>, sorted: seq<DocPage>, source: string,
                                       lang: string)
    requires AddProjects(l, projects, sorted, source).Some?
    ensures AddProjects(l, projects, sorted, source).value.files ==
      Fill(l.files, FileEntries(SourceWrites(lang, projects, sorted)))
    decreases |projects|
  {
    hide DocFile, PagesIn, DocEntries, FileEntries, BodyEntries;
    if projects == [] {
      assert FileEntries([]) == [];
    } else {
      var before, p := projects[..|projects| - 1], projects[|projects| - 1];
      SourceFiles(l, before, sorted, source, lang);
      ProjectWritesAre(lang, p.slug, sorted);
      FileEntriesAppend(SourceWrites(lang, before, sorted), ProjectWrites(lang, PagesIn(sorted, p.slug)));
      FillAppend(l.files, FileEntries(SourceWrites(lang, before, sorted)),
                 BodyEntries(p.slug, PagesIn(sorted, p.slug)));
    }
  }

  lemma {:induction false} FileEntriesAppend(a: seq<Written>, b: seq<Written>)
    ensures FileEntries(a + b) == FileEntries(a) + FileEntries(b)
    ensures ListedPages(a + b) == ListedPages(a) + ListedPages(b)
  {
    hide DocFile;
  }

  // Its projects are new, and none has two pages with the same slug.
  lemma {:induction false} SourcePairs(l: Listing, projects: seq<ProjectSpec>, sorted: seq<DocPage>, source: string,
                                       lang: string)
    requires AddProjects(l, projects, sorted, source).Some?
    ensures var after, ws := AddProjects(l, projects, sorted, source).value.projects,
      SourceWrites(lang, projects, sorted);
      && PairsDistinct(ws) && NoProjectAmong(ws, l.projects) && ProjectsAmong(ws, after) &&
        l.projects.Keys <= after.Keys
    decreases |projects|
  {
    hide DocFile, PagesIn, DocEntries, BodyEntries, PairsDistinct, SlugsDistinct;
    if projects == [] {
      NoPairs();
    } else {
      var before, p := projects[..|projects| - 1], projects[|projects| - 1];
      SourcePairs(l, before, sorted, source, lang);
      ProjectWritesAre(lang, p.slug, sorted);
      PairsAppend(SourceWrites(lang, before, sorted), ProjectWrites(lang, PagesIn(sorted, p.slug)),
                  AddProjects(l, before, sorted, source).value.projects);
    }
  }

  lemma {:induction false} NoPairs()
    ensures PairsDistinct([])
  {
  }

  // The manifest lists them in the order they are written.
  lemma {:induction false} SourceListings(lang: string, projects: seq<ProjectSpec>, sorted: seq<DocPage>)
    ensures DocSync.SourcePages(lang, ListedOf(projects, sorted)) == ListedPages(SourceWrites(lang, projects, sorted))
    decreases |projects|
  {
    hide DocFile, PagesIn, DocEntries;
    var listed := ListedOf(projects, sorted);
    if projects == [] {
      assert ListedPages([]) == [];
    } else {
      var before, p := projects[..|projects| - 1], projects[|projects| - 1];
      SourceListings(lang, before, sorted);
      assert listed[..|before|] == ListedOf(before, sorted);
      ProjectWritesAre(lang, p.slug, sorted);
      FileEntriesAppend(SourceWrites(lang, before, sorted), ProjectWrites(lang, PagesIn(sorted, p.slug)));
    }
  }

  lemma {:induction false} SourceMembers(lang: string, projects: seq<ProjectSpec>, sorted: seq<DocPage>, w: Written)
    ensures w in SourceWrites(lang, projects, sorted) <==>
      w.lang == lang && w.page in sorted && w.page.project in ProjectSlugs(projects)
    decreases |projects|
  {
    hide DocFile;
    if projects != [] {
      var before, p := projects[..|projects| - 1], projects[|projects| - 1];
      SourceMembers(lang, before, sorted, w);
      PagesInMembers(sorted, p.slug);
      assert ProjectSlugs(projects) == ProjectSlugs(before) + [p.slug];
      var mine := PagesIn(sorted, p.slug);
      assert w in ProjectWrites(lang, mine) <==> w.lang == lang && w.page in mine by {
        if w.lang == lang && w.page in mine {
          var k :| 0 <= k < |mine| && mine[k] == w.page;
          assert ProjectWrites(lang, mine)[k] == w;
        }
      }
    }
  }

  // ---------- The run ----------

  // One source's pages join those before: their bodies in the docs files, and their entries in the manifest.
  lemma {:induction false} StepWrites(lower: Lowering, out: Output, src: Input, out': Output)
    requires IsStep(lower, out, src, out')
    ensures var ws := InputWrites(lower, src);
      && out'.docFiles == Fill(out.docFiles, FileEntries(ws))
      && DocSync.ManifestPages(out'.sources) == DocSync.ManifestPages(out.sources) + ListedPages(ws)
      && PairsDistinct(ws) && NoProjectAmong(ws, out.projects) && ProjectsAmong(ws, out'.projects)
      && out.projects.Keys <= out'.projects.Keys
  {
    hide Collected, RegisterAll, Sort, Compact, AddProjects, Fill, FileEntries, ListedPages, SourceWrites,
      PairsDistinct, NoProjectAmong, ProjectsAmong,
      DocSync.SourcePages, ListedOf;
    var spec := src.spec;
    var sorted := Sort(Collected(lower, spec, InfoOf(spec.lang), src.files).value.pages, PageLe);
    var l0 := Listing(out.docFiles, out.projects, []);
    SourceFiles(l0, spec.projects, sorted, spec.name, spec.lang);
    SourcePairs(l0, spec.projects, sorted, spec.name, spec.lang);
    SourceListings(spec.lang, spec.projects, sorted);
    AddProjectsLists(l0, spec.projects, sorted, spec.name);
    assert l0.listed + ListedOf(spec.projects, sorted) == ListedOf(spec.projects, sorted);
    assert out'.sources[..|out'.sources| - 1] == out.sources;
  }

  // The docs files are the written pages one after another, and the manifest lists those pages.
  lemma {:induction false} RunIsWrites(lower: Lowering, inputs: seq<Input>)
    requires AddSources(lower, inputs).Some?
    ensures var out, ws := AddSources(lower, inputs).value, RunWrites(lower, inputs);
      && out.docFiles == Fill(map[], FileEntries(ws)) && DocSync.ManifestPages(out.sources) == ListedPages(ws)
      && PairsDistinct(ws) && ProjectsAmong(ws, out.projects)
    decreases |inputs|
  {
    if inputs == [] {
      assert FileEntries([]) == [] && ListedPages([]) == [];
    } else {
      hide AddSource, InputWrites, PairsDistinct, NoProjectAmong, DocFile, ListedPages, FileEntries, Fill;
      var before := inputs[..|inputs| - 1];
      RunIsWrites(lower, before);
      var out, last := AddSources(lower, before).value, inputs[|inputs| - 1];
      var a, b := RunWrites(lower, before), InputWrites(lower, last);
      assert IsStep(lower, out, last, AddSources(lower, inputs).value);
      StepWrites(lower, out, last, AddSources(lower, inputs).value);
      FileEntriesAppend(a, b);
      FillAppend(map[], FileEntries(a), FileEntries(b));
      PairsAppend(a, b, out.projects);
    }
  }

  // The page was collected from the i-th archive.
  ghost predicate IsCollected(lower: Lowering, inputs: seq<Input>, i: int, page: DocPage) {
    && 0 <= i < |inputs| && IsLang(inputs[i].spec.lang)
    && var parts := Collected(lower, inputs[i].spec, InfoOf(inputs[i].spec.lang), inputs[i].files);
    parts.Some? && page in parts.value.pages
  }

  lemma {:induction false} InputMembers(lower: Lowering, inputs: seq<Input>, i: nat, w: Written)
    requires i < |inputs|
    ensures w in InputWrites(lower, inputs[i]) <==>
      IsCollected(lower, inputs, i, w.page) && w.lang == inputs[i].spec.lang
    ensures IsCollected(lower, inputs, i, w.page) ==> IsSlug(w.page.slug)
  {
    hide Collected, SourceWrites, IsSlug, Sort;
    var spec := inputs[i].spec;
    if IsLang(spec.lang) && Collected(lower, spec, InfoOf(spec.lang), inputs[i].files).Some? {
      var pages := Collected(lower, spec, InfoOf(spec.lang), inputs[i].files).value.pages;
      CollectedSlugs(lower, spec, InfoOf(spec.lang), inputs[i].files);
      SourceMembers(spec.lang, spec.projects, Sort(pages, PageLe), w);
      SortMembers(pages, w.page);
    }
  }

  lemma {:induction false} SortMembers(pages: seq<DocPage>, page: DocPage)
    ensures page in Sort(pages, PageLe) <==> page in pages
  {
    PageOrder();
    SortSorts(pages, PageLe);
    assert page in Sort(pages, PageLe) <==> page in multiset(Sort(pages, PageLe));
    assert page in pages <==> page in multiset(pages);
  }

  // The written pages are the collected ones.
  lemma {:induction false} WritesAreCollected(lower: Lowering, inputs: seq<Input>, w: Written)
    ensures w in RunWrites(lower, inputs) <==> exists i ::
      IsCollected(lower, inputs, i, w.page) && w.lang == inputs[i].spec.lang
    ensures w in RunWrites(lower, inputs) ==> IsSlug(w.page.slug)
    decreases |inputs|
  {
    hide IsSlug, InputWrites, Collected;
    if inputs != [] {
      var n := |inputs| - 1;
      WritesAreCollected(lower, inputs[..n], w);
      InputMembers(lower, inputs, n, w);
      forall i | 0 <= i < n
        ensures IsCollected(lower, inputs[..n], i, w.page) <==> IsCollected(lower, inputs, i, w.page)
      {
      }
    }
  }

  // ---------- Conservation ----------

  // No other project has a page with this page's file.
  ghost predicate FileIsOwn(lower: Lowering, inputs: seq<Input>, page: DocPage) {
    forall j, q ::
      IsCollected(lower, inputs, j, q) && DocDir(q.project) == DocDir(page.project) && q.slug == page.slug ==>
      q.project == page.project
  }

  // No two projects with the same cleaned directory have a page with the same slug.
  ghost predicate FilesAreOwn(lower: Lowering, inputs: seq<Input>) {
    forall i, page :: IsCollected(lower, inputs, i, page) ==> FileIsOwn(lower, inputs, page)
  }

  // The page's body is under the page's file.
  ghost predicate BodyHeld(files: map<string, string>, page: DocPage) {
    DocFile(page.project, page.slug) in files && files[DocFile(page.project, page.slug)] == page.body
  }

  function ListedFiles(pages: seq<DocSync.Page>): set<string> {
    set p | p in pages :: p.doc.file
  }

  // The docs files are those the manifest lists.
  lemma {:induction false} DocsListed(lower: Lowering, inputs: seq<Input>)
    requires AddSources(lower, inputs).Some?
    ensures var out := AddSources(lower, inputs).value;
      out.docFiles.Keys == ListedFiles(DocSync.ManifestPages(out.sources))
  {
    hide AddSources, DocFile, RunWrites, ListedFiles, PairsDistinct, Fill;
    var ws := RunWrites(lower, inputs);
    RunIsWrites(lower, inputs);
    FillKeys(map[], FileEntries(ws));
    EntriesAreListed(ws);
  }

  lemma {:induction false} EntriesAreListed(ws: seq<Written>)
    ensures KeysOf(FileEntries(ws)) == ListedFiles(ListedPages(ws))
  {
    hide DocFile;
    forall i | 0 <= i < |ws|
      ensures FileEntries(ws)[i] in FileEntries(ws) && ListedPages(ws)[i] in ListedPages(ws)
      ensures FileEntries(ws)[i].0 == ListedPages(ws)[i].doc.file
    {
    }
  }

  // A page shares its file with another written page only when it is not its own.
  lemma {:induction false} SharedFile(lower: Lowering, inputs: seq<Input>, i: nat, j: nat)
    requires AddSources(lower, inputs).Some? && i < |RunWrites(lower, inputs)| && j < |RunWrites(lower, inputs)| &&
      i != j
    requires FileIsOwn(lower, inputs, RunWrites(lower, inputs)[i].page)
    ensures FileEntries(RunWrites(lower, inputs))[i].0 != FileEntries(RunWrites(lower, inputs))[j].0
  {
    hide AddSources, DocFile, RunWrites, IsSlug, IsCollected, DocDir;
    var ws := RunWrites(lower, inputs);
    RunIsWrites(lower, inputs);
    var p, q := ws[i], ws[j];
    assert p in ws && q in ws;
    WritesAreCollected(lower, inputs, p);
    WritesAreCollected(lower, inputs, q);
    DocFileSameIff(p.page.project, p.page.slug, q.page.project, q.page.slug);
  }

  // There are at most as many docs files as listed pages, and as many exactly when no two projects
  // with the same directory, once cleaned, have a page with the same slug.
  lemma {:induction false} DocsConserved(lower: Lowering, inputs: seq<Input>)
    requires AddSources(lower, inputs).Some?
    ensures var out := AddSources(lower, inputs).value;
      var listed := |DocSync.ManifestPages(out.sources)|;
      |out.docFiles| <= listed && (|out.docFiles| == listed <==> FilesAreOwn(lower, inputs))
  {
    hide AddSources, DocFile, RunWrites, DocDir, Fill, FileIsOwn;
    var out, ws := AddSources(lower, inputs).value, RunWrites(lower, inputs);
    var entries := FileEntries(ws);
    RunIsWrites(lower, inputs);
    FillKeys(map[], entries);
    assert out.docFiles.Keys == KeysOf(entries);
    assert |out.docFiles| == |out.docFiles.Keys|;
    KeysCount(entries);
    if FilesAreOwn(lower, inputs) {
      forall i: nat, j: nat | i < j < |ws|
        ensures entries[i].0 != entries[j].0
      {
        assert ws[i] in ws;
        WritesAreCollected(lower, inputs, ws[i]);
        SharedFile(lower, inputs, i, j);
      }
    }
    if KeysDistinct(entries) {
      forall i, page | IsCollected(lower, inputs, i, page)
        ensures FileIsOwn(lower, inputs, page)
      {
        DistinctIsOwn(lower, inputs, i, page);
      }
    }
  }

  lemma {:induction false} DistinctIsOwn(lower: Lowering, inputs: seq<Input>, i: int, page: DocPage)
    requires KeysDistinct(FileEntries(RunWrites(lower, inputs))) && IsCollected(lower, inputs, i, page)
    ensures FileIsOwn(lower, inputs, page)
  {
    hide DocFile, RunWrites, DocDir, IsCollected, IsSlug, KeysDistinct;
    var ws := RunWrites(lower, inputs);
    var m := WrittenAt(lower, inputs, i, page);
    forall j, q | IsCollected(lower, inputs, j, q) && DocDir(q.project) == DocDir(page.project) && q.slug == page.slug
      ensures q.project == page.project
    {
      var n := WrittenAt(lower, inputs, j, q);
      DocFileSameIff(page.project, page.slug, q.project, q.slug);
      OneWithKey(FileEntries(ws), m, n);
    }
  }

  lemma {:induction false} OneWithKey(entries: seq<Entry>, m: nat, n: nat)
    requires KeysDistinct(entries) && m < |entries| && n < |entries| && entries[m].0 == entries[n].0
    ensures m == n
  {
  }

  lemma {:induction false} WrittenAt(lower: Lowering, inputs: seq<Input>, i: int, page: DocPage) returns (n: nat)
    requires IsCollected(lower, inputs, i, page)
    ensures var ws := RunWrites(lower, inputs); n < |ws| && ws[n] == Written(inputs[i].spec.lang, page)
    ensures IsSlug(page.slug)
  {
    hide RunWrites, IsSlug;
    var w := Written(inputs[i].spec.lang, page);
    WritesAreCollected(lower, inputs, w);
    assert IsCollected(lower, inputs, i, w.page) && w.lang == inputs[i].spec.lang;
    var ws := RunWrites(lower, inputs);
    n :| 0 <= n < |ws| && ws[n] == w;
  }

  // A page whose file is its own has its body there.
  lemma {:induction false} OwnFileHoldsBody(lower: Lowering, inputs: seq<Input>, i: int, page: DocPage)
    requires AddSources(lower, inputs).Some? && IsCollected(lower, inputs, i, page) && FileIsOwn(lower, inputs, page)
    ensures BodyHeld(AddSources(lower, inputs).value.docFiles, page)
  {
    hide AddSources, DocFile, RunWrites, IsCollected, FileIsOwn, Fill;
    var ws := RunWrites(lower, inputs);
    var n := WrittenAt(lower, inputs, i, page);
    RunIsWrites(lower, inputs);
    forall j: nat | n < j < |ws|
      ensures FileEntries(ws)[j].0 != FileEntries(ws)[n].0
    {
      SharedFile(lower, inputs, n, j);
    }
    FillLast(map[], FileEntries(ws), n);
  }

  // ---------- A run that loses a page ----------

  lemma {:induction false} SortTwo(x: DocPage, y: DocPage)
    ensures Sort([x, y], PageLe) == [x, y] || Sort([x, y], PageLe) == [y, x]
  {
    assert [x, y][..1] == [x] && [x][..0] == [];
    assert Sort([x], PageLe) == [x];
    assert Insert(y, [x], PageLe) == [x, y] || Insert(y, [x], PageLe) == Insert(y, [], PageLe) + [x];
  }

  lemma {:induction false} PagesOfTwo(x: DocPage, y: DocPage)
    requires x.project != y.project
    ensures PagesIn(Sort([x, y], PageLe), x.project) == [x] && PagesIn(Sort([x, y], PageLe), y.project) == [y]
  {
    SortTwo(x, y);
    PagesInTwo(x, y, x.project);
    PagesInTwo(x, y, y.project);
    PagesInTwo(y, x, x.project);
    PagesInTwo(y, x, y.project);
  }

  lemma {:induction false} PagesInTwo(x: DocPage, y: DocPage, project: string)
    ensures PagesIn([x, y], project) ==
      (if x.project == project then [x] else []) + if y.project == project then [y] else []
  {
    assert [x, y][..1] == [x] && [x][..0] == [];
    assert PagesIn([x], project) == if x.project == project then [x] else [];
  }

  // A source whose archive holds one page of each of two projects
  ghost predicate HoldsTwo(lower: Lowering, src: Input, x: DocPage, y: DocPage) {
    && IsLang(src.spec.lang) && Collected(lower, src.spec, InfoOf(src.spec.lang), src.files) == Some(Parts([], [x, y]))
    && ProjectSlugs(src.spec.projects) == [x.project, y.project] && x.project != y.project
  }

  lemma {:induction false} TwoProjects(l: Listing, projects: seq<ProjectSpec>, x: DocPage, y: DocPage, source: string)
    requires ProjectSlugs(projects) == [x.project, y.project] && x.project != y.project && l.projects == map[]
    ensures AddProjects(l, projects, Sort([x, y], PageLe), source).Some?
  {
    hide DocFile, Sort, PagesIn, WithDocs, DocEntries;
    PagesOfTwo(x, y);
    var sorted := Sort([x, y], PageLe);
    assert projects[0].slug == ProjectSlugs(projects)[0] && projects[1].slug == ProjectSlugs(projects)[1];
    assert projects[..1][..0] == [] && AddProjects(l, [], sorted, source) == Some(l);
    assert AddProjects(l, projects[..1], sorted, source).Some?;
  }

  lemma {:induction false} TwoWrites(lang: string, projects: seq<ProjectSpec>, x: DocPage, y: DocPage)
    requires ProjectSlugs(projects) == [x.project, y.project] && x.project != y.project
    ensures SourceWrites(lang, projects, Sort([x, y], PageLe)) == [Written(lang, x), Written(lang, y)]
  {
    hide DocFile, Sort, PagesIn;
    PagesOfTwo(x, y);
    var sorted := Sort([x, y], PageLe);
    assert projects[0].slug == ProjectSlugs(projects)[0] && projects[1].slug == ProjectSlugs(projects)[1];
    assert projects[..1][..0] == [] && SourceWrites(lang, [], sorted) == [];
    assert ProjectWrites(lang, [x]) == [Written(lang, x)] && ProjectWrites(lang, [y]) == [Written(lang, y)];
    assert SourceWrites(lang, projects[..1], sorted) == [Written(lang, x)];
  }

  lemma {:induction false} TwoPagesRun(lower: Lowering, src: Input, x: DocPage, y: DocPage)
    requires HoldsTwo(lower, src, x, y)
    ensures AddSources(lower, [src]).Some?
    ensures RunWrites(lower, [src]) == [Written(src.spec.lang, x), Written(src.spec.lang, y)]
  {
    hide Collected, AddProjects, SourceWrites, Sort, Compact;
    var reg0 := Reg(map[], map[], []);
    NothingRegistered(reg0, src.spec, InfoOf(src.spec.lang));
    TwoProjects(Listing(map[], map[], []), src.spec.projects, x, y, src.spec.name);
    TwoWrites(src.spec.lang, src.spec.projects, x, y);
    assert [src][..0] == [];
    assert AddSource(lower, NOTHING, src).Some?;
    assert AddLast(lower, [src]) == AddSource(lower, NOTHING, src);
  }

  // Two pages with one slug, of two projects with one directory: the run succeeds and its manifest
  // lists both, but there is one file, with the body of the second.
  lemma {:induction false} SharedDirectoryLosesPage(lower: Lowering, src: Input, x: DocPage, y: DocPage)
    requires HoldsTwo(lower, src, x, y) && DocDir(x.project) == DocDir(y.project) && x.slug == y.slug
    ensures AddSources(lower, [src]).Some?
    ensures var out := AddSources(lower, [src]).value;
      && |DocSync.ManifestPages(out.sources)| == 2 && out.docFiles == map[DocFile(x.project, x.slug) := y.body]
      && (x.body != y.body ==> !BodyHeld(out.docFiles, x))
  {
    hide AddSources, RunWrites, DocDir, HoldsTwo, PairsDistinct, IsSlug;
    TwoPagesRun(lower, src, x, y);
    RunIsWrites(lower, [src]);
    var ws := [Written(src.spec.lang, x), Written(src.spec.lang, y)];
    assert ws[0] in ws && ws[1] in ws;
    WritesAreCollected(lower, [src], ws[0]);
    DocFileSameIff(x.project, x.slug, y.project, y.slug);
    TwoEntries(FileEntries(ws));
  }

  lemma {:induction false} TwoEntries(entries: seq<Entry>)
    requires |entries| == 2 && entries[0].0 == entries[1].0
    ensures Fill(map[], entries) == map[entries[0].0 := entries[1].1]
  {
    assert entries[..1][..0] == [];
    assert Fill(map[], entries[..1]) == map[entries[0].0 := entries[0].1];
  }

  // Such an archive: the pages p of the projects a and ./a
  function DottedSpec(): SourceSpec {
    SourceSpec("s", "main", "go", [ProjectSpec("a", "x"), ProjectSpec("./a", "y")])
  }

  function DottedSource(commit: string, dataX: string, dataY: string): Input {
    Input(DottedSpec(), commit, [File("x/p.md", dataX), File("y/p.md", dataY)])
  }

  lemma {:induction false} SlugOfP(lower: Lowering, dir: string)
    ensures DocSlug(lower, dir + "/" + "p.md") == "p"
  {
    BaseOfFile(dir, "p.md");
    assert "p.md"[1..] == ".md" && "p.md"[..1] == "p";
    assert WithoutNumber("p") == "p";
    SlugShape(lower, "p");
  }

  lemma {:induction false} OneFilePage(lower: Lowering, projects: seq<ProjectSpec>, f: File, k: nat)
    requires |projects| == 2 && k < 2 && IsDocOf(projects[k], f.name) && !IsDocOf(projects[1 - k], f.name)
    ensures FilePages(lower, projects, f) ==
      match PageOf(lower, projects[k], f) case None => None case Some(page) => Some([page])
  {
    hide IsDocOf, PageOf;
    assert projects[..1][..0] == [];
    assert FilePages(lower, [], f) == Some([]);
    if PageOf(lower, projects[k], f).Some? {
      var page := PageOf(lower, projects[k], f).value;
      assert [] + [page] == [page];
      assert FilePages(lower, projects[..1], f) == Some(if k == 0 then [page] else []);
    } else {
      assert k == 0 ==> FilePages(lower, projects[..1], f) == None;
      assert k == 1 ==> FilePages(lower, projects[..1], f) == Some([]);
    }
  }

  lemma {:induction false} TwoFiles(lower: Lowering, spec: SourceSpec, info: LangInfo, f: File, g: File)
    requires |spec.projects| == 2 && !HasSuffix(f.name, info.scanExt) && !HasSuffix(g.name, info.scanExt)
    requires IsDocOf(spec.projects[0], f.name) && !IsDocOf(spec.projects[1], f.name)
    requires IsDocOf(spec.projects[1], g.name) && !IsDocOf(spec.projects[0], g.name)
    requires PageOf(lower, spec.projects[0], f).Some? && PageOf(lower, spec.projects[1], g).Some?
    ensures Collected(lower, spec, info, [f, g]) ==
      Some(Parts([], [PageOf(lower, spec.projects[0], f).value, PageOf(lower, spec.projects[1], g).value]))
  {
    hide IsDocOf, PageOf, HasSuffix, FilePages, Gather;
    OneFilePage(lower, spec.projects, f, 0);
    OneFilePage(lower, spec.projects, g, 1);
    TwoGathered(PartsOfAll(lower, spec, info, [f, g]), PageOf(lower, spec.projects[0], f).value,
                PageOf(lower, spec.projects[1], g).value);
  }

  lemma {:induction false} TwoGathered(parts: seq<Option<Parts>>, x: DocPage, y: DocPage)
    requires parts == [Some(Parts([], [x])), Some(Parts([], [y]))]
    ensures Gather(parts) == Some(Parts([], [x, y]))
  {
    assert parts[..1][..0] == [];
    assert Gather([]) == NO_PARTS;
    var none := parts[0].value.snippets;
    assert none + none == none && [] + [x] == [x] && [x] + [y] == [x, y];
    assert Gather(parts[..1]) == Some(Parts([], [x]));
  }

  lemma {:induction false} PageFields(lower: Lowering, proj: ProjectSpec, f: File)
    requires FrontMatter.Parse(f.data).Parsed? && DocSlug(lower, f.name) != ""
    ensures PageOf(lower, proj, f).Some?
    ensures var page := PageOf(lower, proj, f).value;
      page.project == proj.slug && page.slug == DocSlug(lower, f.name) && page.body == FrontMatter.Parse(f.data).body
  {
  }

  lemma {:induction false} ArchiveOfTwo(lower: Lowering, src: Input) returns (x: DocPage, y: DocPage)
    requires IsLang(src.spec.lang) && |src.files| == 2 && |src.spec.projects| == 2
    requires var projects, f, g, ext := src.spec.projects, src.files[0], src.files[1], InfoOf(src.spec.lang).scanExt;
      && projects[0].slug != projects[1].slug && !HasSuffix(f.name, ext) && !HasSuffix(g.name, ext)
      && IsDocOf(projects[0], f.name) && !IsDocOf(projects[1], f.name) && IsDocOf(projects[1], g.name) &&
        !IsDocOf(projects[0], g.name)
      && DocSlug(lower, f.name) != "" && DocSlug(lower, g.name) != ""
      && FrontMatter.Parse(f.data).Parsed? && FrontMatter.Parse(g.data).Parsed?
    ensures HoldsTwo(lower, src, x, y) && x.project == src.spec.projects[0].slug &&
      y.project == src.spec.projects[1].slug
    ensures x.slug == DocSlug(lower, src.files[0].name) && y.slug == DocSlug(lower, src.files[1].name)
    ensures x.body == FrontMatter.Parse(src.files[0].data).body && y.body == FrontMatter.Parse(src.files[1].data).body
  {
    hide DocSlug, FrontMatter.Parse, IsDocOf, HasSuffix, Collected, PageOf, IsLang, InfoOf;
    var projects, f, g := src.spec.projects, src.files[0], src.files[1];
    PageFields(lower, projects[0], f);
    PageFields(lower, projects[1], g);
    TwoFiles(lower, src.spec, InfoOf(src.spec.lang), f, g);
    x, y := PageOf(lower, projects[0], f).value, PageOf(lower, projects[1], g).value;
    assert src.files == [f, g];
    assert ProjectSlugs(projects) == [x.project, y.project];
  }

  lemma {:induction false} DottedNames(projects: seq<ProjectSpec>)
    requires projects == DottedSpec().projects
    ensures IsDocOf(projects[0], "x/p.md") && !IsDocOf(projects[1], "x/p.md") && !HasSuffix("x/p.md", ".go")
    ensures IsDocOf(projects[1], "y/p.md") && !IsDocOf(projects[0], "y/p.md") && !HasSuffix("y/p.md", ".go")
    ensures projects[0].slug != projects[1].slug
  {
    assert "x/p.md"[3..] == ".md" && "y/p.md"[3..] == ".md" && ".md"[1] != ".go"[1];
    assert "x/" <= "x/p.md" && "y/" <= "y/p.md" && "x/"[0] != "y/"[0];
    assert "x" + "/" == "x/" && "y" + "/" == "y/";
    assert "a"[0] != "./a"[0];
  }

  lemma {:induction false} DottedSlugs(lower: Lowering)
    ensures DocSlug(lower, "x/p.md") == DocSlug(lower, "y/p.md") != ""
  {
    hide DocSlug;
    SlugOfP(lower, "x");
    SlugOfP(lower, "y");
    assert "x" + "/" + "p.md" == "x/p.md" && "y" + "/" + "p.md" == "y/p.md";
  }

  // A run over that archive succeeds and lists both pages, but writes one docs file, and the first
  // page's body is in none.
  lemma {:induction false} DottedProjectLosesPage(lower: Lowering, commit: string, dataX: string, dataY: string)
    requires FrontMatter.Parse(dataX).Parsed? && FrontMatter.Parse(dataY).Parsed?
    requires FrontMatter.Parse(dataX).body != FrontMatter.Parse(dataY).body
    ensures var r := AddSources(lower, [DottedSource(commit, dataX, dataY)]);
      && r.Some? && |DocSync.ManifestPages(r.value.sources)| == 2 && |r.value.docFiles| == 1
      && FrontMatter.Parse(dataX).body !in r.value.docFiles.Values
  {
    hide AddSources, HoldsTwo, DocFile, DocDir, FrontMatter.Parse, IsDocOf, HasSuffix, DocSlug;
    var src := DottedSource(commit, dataX, dataY);
    DottedNames(src.spec.projects);
    DottedSlugs(lower);
    DottedDirs();
    hide DottedSpec;
    var x, y := ArchiveOfTwo(lower, src);
    SharedDirectoryLosesPage(lower, src, x, y);
    assert forall k <- AddSources(lower, [src]).value.docFiles :: AddSources(lower, [src]).value.docFiles[k] == y.body;
  }

  lemma {:induction false} DottedDirs()
    ensures var projects := DottedSpec().projects; DocDir(projects[0].slug) == DocDir(projects[1].slug)
  {
    DottedDir("docs", "a");
    assert "./" + "a" == "./a";
  }
}
