/**
The sync run (cmd/sync/sync.go, `run`): every source's archive is visited file by file in
archive order, then its topics and pages are sorted and its projects listed in the manifest.
Any error ends the run, which then writes nothing.
*/
module SyncRun {
  import opened Text
  import opened Slug
  import opened Paths
  import opened Order
  import opened Entries
  import opened Manifests
  import opened SyncFiles
  import Markers

  // One source with its resolved commit and the files of that commit's archive
  datatype Input = Input(spec: SourceSpec, commit: string, files: seq<File>)

  // Everything the run builds: what it writes, and who provided each variant and project.
  datatype Output = Output(
    sources: seq<ManifestSource>, snippetFiles: map<string, string>, docFiles: map<string, string>,
    variants: map<string, string>, projects: map<string, string>)

  // ---------- Snippets of one source ----------

  datatype Reg = Reg(variants: map<string, string>, files: map<string, string>, topics: seq<string>)

  function VariantKey(topic: string, lang: string): string {
    topic + "/" + lang
  }

  function SnippetFile(topic: string, lang: string, outExt: string): string {
    JoinPath(["examples", topic, lang + outExt])
  }

  // A snippet with the variant it provides and the file it is written to
  datatype Item = Item(topic: string, key: string, file: string, code: string)

  function ItemOf(sn: Markers.Snippet, spec: SourceSpec, info: LangInfo): Item {
    Item(sn.topic, VariantKey(sn.topic, spec.lang), SnippetFile(sn.topic, spec.lang, info.outExt), sn.code)
  }

  function Items(snippets: seq<Markers.Snippet>, spec: SourceSpec, info: LangInfo): (r: seq<Item>)
  {
    seq(|snippets|, i requires 0 <= i < |snippets| => ItemOf(snippets[i], spec, info))
  }

  // None is a topic already provided for this language.
  function Register(r: Reg, it: Item, source: string): Option<Reg> {
    if it.key in r.variants then None
    else Some(Reg(r.variants[it.key := source], r.files[it.file := it.code], r.topics + [it.topic]))
  }

  function RegisterItems(r: Reg, items: seq<Item>, source: string): Option<Reg> {
    if items == [] then Some(r)
    else match RegisterItems(r, items[..|items| - 1], source)
      case None => None
      case Some(before) => Register(before, items[|items| - 1], source)
  }

  function RegisterAll(r: Reg, snippets: seq<Markers.Snippet>, spec: SourceSpec, info: LangInfo): Option<Reg> {
    RegisterItems(r, Items(snippets, spec, info), spec.name)
  }

  lemma {:induction false} RegisterItemsAppend(r: Reg, a: seq<Item>, b: seq<Item>, source: string)
    ensures RegisterItems(r, a + b, source) ==
      match RegisterItems(r, a, source) case None => None case Some(m) => RegisterItems(m, b, source)
    decreases |b|
  {
    if b == [] {
      assert a + b == a;
    } else {
      var before := b[..|b| - 1];
      assert (a + b)[..|a + b| - 1] == a + before;
      RegisterItemsAppend(r, a, before, source);
    }
  }

  lemma {:induction false} RegisterAllAppend(r: Reg, a: seq<Markers.Snippet>, b: seq<Markers.Snippet>, spec: SourceSpec,
                                             info: LangInfo)
    ensures RegisterAll(r, a + b, spec, info) ==
      match RegisterAll(r, a, spec, info) case None => None case Some(m) => RegisterAll(m, b, spec, info)
  {
    hide ItemOf;
    assert Items(a + b, spec, info) == Items(a, spec, info) + Items(b, spec, info);
    RegisterItemsAppend(r, Items(a, spec, info), Items(b, spec, info), spec.name);
  }

  method RegisterSnippets(r: Reg, snippets: seq<Markers.Snippet>, spec: SourceSpec, info: LangInfo)
      returns (ok: bool, reg: Reg)
    ensures ok <==> RegisterAll(r, snippets, spec, info).Some?
    ensures ok ==> RegisterAll(r, snippets, spec, info) == Some(reg)
  {
    hide SnippetFile, VariantKey;
    reg := r;
    ghost var items := Items(snippets, spec, info);
    for i := 0 to |snippets|
      invariant RegisterItems(r, items[..i], spec.name) == Some(reg)
    {
      assert items[..i + 1][..i] == items[..i];
      var sn := snippets[i];
      var key := VariantKey(sn.topic, spec.lang);
      if key in reg.variants {
        RegisterItemsAppend(r, items[..i + 1], items[i + 1..], spec.name);
        assert items[..i + 1] + items[i + 1..] == items;
        return false, reg;
      }
      reg := Reg(reg.variants[key := spec.name], reg.files[SnippetFile(sn.topic, spec.lang, info.outExt) := sn.code],
                 reg.topics + [sn.topic]);
    }
    assert items[..|snippets|] == items;
    return true, reg;
  }

  // ---------- Files of one source ----------

  datatype Parts = Parts(snippets: seq<Markers.Snippet>, pages: seq<DocPage>)

  function PartsOf(lower: Lowering, spec: SourceSpec, info: LangInfo, f: File): Option<Parts> {
    var snippets, pages := FileSnippets(info, f), FilePages(lower, spec.projects, f);
    if snippets == None || pages == None then None else Some(Parts(snippets.value, pages.value))
  }

  function PartsOfAll(lower: Lowering, spec: SourceSpec, info: LangInfo, files: seq<File>): (r: seq<Option<Parts>>)
  {
    seq(|files|, i requires 0 <= i < |files| => PartsOf(lower, spec, info, files[i]))
  }

  function Then(a: Option<Parts>, b: Option<Parts>): Option<Parts> {
    if a == None || b == None then None
      else Some(Parts(a.value.snippets + b.value.snippets, a.value.pages + b.value.pages))
  }

  const NO_PARTS := Some(Parts([], []))

  function Gather(parts: seq<Option<Parts>>): Option<Parts> {
    if parts == [] then NO_PARTS else Then(Gather(parts[..|parts| - 1]), parts[|parts| - 1])
  }

  // The snippets and pages of all files; None when one of them is in error
  function Collected(lower: Lowering, spec: SourceSpec, info: LangInfo, files: seq<File>): Option<Parts> {
    Gather(PartsOfAll(lower, spec, info, files))
  }

  // The callback of the archive walk
  method VisitFile(lower: Lowering, spec: SourceSpec, info: LangInfo, f: File, reg0: Reg, pages0: seq<DocPage>)
    returns (ok: bool, reg: Reg, pages: seq<DocPage>)
    ensures ok <==>
      PartsOf(lower, spec, info, f).Some? &&
        RegisterAll(reg0, PartsOf(lower, spec, info, f).value.snippets, spec, info).Some?
    ensures ok ==>
      && RegisterAll(reg0, PartsOf(lower, spec, info, f).value.snippets, spec, info) == Some(reg)
      && pages == pages0 + PartsOf(lower, spec, info, f).value.pages
  {
    reg, pages := reg0, pages0;
    if HasSuffix(f.name, info.scanExt) {
      var snippets := Markers.ExtractSnippets(f.data, info.prefix);
      if snippets.Failure? {
        return false, reg, pages;
      }
      ok, reg := RegisterSnippets(reg, snippets.value, spec, info);
      if !ok {
        return;
      }
    }
    ok, pages := CollectPages(lower, spec.projects, f, pages);
  }

  lemma {:induction false} GatherPrefix(parts: seq<Option<Parts>>, n: nat)
    requires n <= |parts| && Gather(parts).Some?
    ensures Gather(parts[..n]).Some? && Gather(parts[..n]).value.snippets <= Gather(parts).value.snippets
  {
    if n == |parts| {
      assert parts[..n] == parts;
    } else {
      assert parts[..|parts| - 1][..n] == parts[..n];
      GatherPrefix(parts[..|parts| - 1], n);
    }
  }

  // What the walk over the archive gives
  function Walked(lower: Lowering, spec: SourceSpec, info: LangInfo, files: seq<File>,
                  reg: Reg): Option<(Reg, seq<DocPage>)> {
    match Collected(lower, spec, info, files)
    case None => None
    case Some(parts) =>
      match RegisterAll(reg, parts.snippets, spec, info)
      case None => None
      case Some(reg') => Some((reg', parts.pages))
  }

  lemma {:induction false} WalkedStops(lower: Lowering, spec: SourceSpec, info: LangInfo, files: seq<File>, reg: Reg,
                                       n: nat)
    requires n <= |files| && Walked(lower, spec, info, files[..n], reg) == None
    ensures Walked(lower, spec, info, files, reg) == None
  {
    hide PartsOf, RegisterAll;
    if Collected(lower, spec, info, files).Some? {
      var parts := PartsOfAll(lower, spec, info, files);
      assert PartsOfAll(lower, spec, info, files[..n]) == parts[..n];
      GatherPrefix(parts, n);
      var a, all := Gather(parts[..n]).value.snippets, Gather(parts).value.snippets;
      assert all == a + all[|a|..];
      RegisterAllAppend(reg, a, all[|a|..], spec, info);
    }
  }

  lemma {:induction false} WalkedSnoc(lower: Lowering, spec: SourceSpec, info: LangInfo, files: seq<File>, f: File,
                                      reg: Reg)
    requires Walked(lower, spec, info, files, reg).Some?
    ensures var (before, pages) := Walked(lower, spec, info, files, reg).value;
      Walked(lower, spec, info, files + [f], reg) ==
      match PartsOf(lower, spec, info, f)
      case None => None
      case Some(parts) =>
        match RegisterAll(before, parts.snippets, spec, info)
        case None => None
        case Some(reg') => Some((reg', pages + parts.pages))
  {
    hide PartsOf, RegisterAll;
    var parts, part := PartsOfAll(lower, spec, info, files), PartsOf(lower, spec, info, f);
    assert PartsOfAll(lower, spec, info, files + [f]) == parts + [part];
    assert (parts + [part])[..|parts|] == parts;
    if part.Some? {
      RegisterAllAppend(reg, Collected(lower, spec, info, files).value.snippets,
                        PartsOf(lower, spec, info, f).value.snippets, spec, info);
    }
  }

  lemma {:induction false} NothingRegistered(reg: Reg, spec: SourceSpec, info: LangInfo)
    ensures Items([], spec, info) == [] && RegisterAll(reg, [], spec, info) == Some(reg)
  {
  }

  method WalkFiles(lower: Lowering, spec: SourceSpec, info: LangInfo, files: seq<File>, reg0: Reg)
    returns (ok: bool, reg: Reg, pages: seq<DocPage>)
    ensures ok <==> Walked(lower, spec, info, files, reg0).Some?
    ensures ok ==> Walked(lower, spec, info, files, reg0) == Some((reg, pages))
  {
    hide PartsOf, RegisterAll;
    reg, pages := reg0, [];
    assert PartsOfAll(lower, spec, info, files[..0]) == [];
    assert Items([], spec, info) == [] && RegisterAll(reg0, [], spec, info) == Some(reg0) by {
      NothingRegistered(reg0, spec, info);
    }
    for i := 0 to |files|
      invariant Walked(lower, spec, info, files[..i], reg0) == Some((reg, pages))
    {
      WalkedSnoc(lower, spec, info, files[..i], files[i], reg0);
      assert files[..i] + [files[i]] == files[..i + 1];
      ok, reg, pages := VisitFile(lower, spec, info, files[i], reg, pages);
      if !ok {
        WalkedStops(lower, spec, info, files, reg0, i + 1);
        return;
      }
    }
    assert files[..|files|] == files;
    ok := true;
  }

  // ---------- Projects of one source ----------

  datatype Listing = Listing(files: map<string, string>, projects: map<string, string>, listed: seq<ManifestProject>)

  // Navigation order: by project, then by file name
  predicate PageLe(a: DocPage, b: DocPage) {
    StrLt(a.project, b.project) || (a.project == b.project && StrLe(a.source, b.source))
  }

  function PagesIn(pages: seq<DocPage>, project: string): seq<DocPage> {
    if pages == [] then []
    else
      var before, page := PagesIn(pages[..|pages| - 1], project), pages[|pages| - 1];
      if page.project == project then before + [page] else before
  }

  predicate SlugsDistinct(pages: seq<DocPage>) {
    forall i, j :: 0 <= i < j < |pages| ==> pages[i].slug != pages[j].slug
  }

  function DocFile(project: string, slug: string): string {
    JoinPath(["docs", project, slug + ".md"])
  }

  function DocEntries(project: string, pages: seq<DocPage>): (r: seq<ManifestDoc>)
    ensures |r| == |pages|
    ensures forall i :: 0 <= i < |r| ==>
      r[i] == ManifestDoc(pages[i].slug, pages[i].title, DocFile(project, pages[i].slug), pages[i].source)
  {
    seq(|pages|,
        i requires 0 <= i < |pages| => ManifestDoc(pages[i].slug, pages[i].title, DocFile(project, pages[i].slug),
                                                   pages[i].source))
  }

  function BodyEntries(project: string, pages: seq<DocPage>): (r: seq<Entry>)
    ensures |r| == |pages| && forall i :: 0 <= i < |r| ==> r[i] == (DocFile(project, pages[i].slug), pages[i].body)
  {
    seq(|pages|, i requires 0 <= i < |pages| => (DocFile(project, pages[i].slug), pages[i].body))
  }

  function WithDocs(files: map<string, string>, project: string, pages: seq<DocPage>): map<string, string> {
    Fill(files, BodyEntries(project, pages))
  }

  // None is a project declared twice or two docs of it with the same slug.
  function AddProject(l: Listing, project: string, pages: seq<DocPage>, source: string): Option<Listing> {
    var mine := PagesIn(pages, project);
    if project in l.projects || !SlugsDistinct(mine) then None
    else Some(Listing(WithDocs(l.files, project, mine), l.projects[project := source],
                      l.listed + [ManifestProject(project, DocEntries(project, mine))]))
  }

  function AddProjects(l: Listing, projects: seq<ProjectSpec>, pages: seq<DocPage>, source: string): Option<Listing> {
    if projects == [] then Some(l)
    else match AddProjects(l, projects[..|projects| - 1], pages, source)
      case None => None
      case Some(before) => AddProject(before, projects[|projects| - 1].slug, pages, source)
  }

  lemma {:induction false} AddProjectsStops(l: Listing, projects: seq<ProjectSpec>, pages: seq<DocPage>, source: string,
                                            n: nat)
    requires n <= |projects| && AddProjects(l, projects[..n], pages, source) == None
    ensures AddProjects(l, projects, pages, source) == None
    decreases |projects|
  {
    if n == |projects| {
      assert projects[..n] == projects;
    } else {
      assert projects[..|projects| - 1][..n] == projects[..n];
      AddProjectsStops(l, projects[..|projects| - 1], pages, source, n);
    }
  }

  lemma {:induction false} PagesInPrefix(pages: seq<DocPage>, project: string, n: nat)
    requires n <= |pages|
    ensures PagesIn(pages[..n], project) <= PagesIn(pages, project)
    decreases |pages|
  {
    if n == |pages| {
      assert pages[..n] == pages;
    } else {
      assert pages[..|pages| - 1][..n] == pages[..n];
      PagesInPrefix(pages[..|pages| - 1], project, n);
    }
  }

  function SlugSet(pages: seq<DocPage>): set<string> {
    set p | p in pages :: p.slug
  }

  lemma {:induction false} SlugSetSnoc(mine: seq<DocPage>, page: DocPage)
    ensures SlugSet(mine + [page]) == SlugSet(mine) + {page.slug}
  {
    assert forall p :: p in mine + [page] <==> p in mine || p == page;
  }

  lemma {:induction false} SlugsSnoc(mine: seq<DocPage>, page: DocPage)
    ensures SlugsDistinct(mine + [page]) <==> SlugsDistinct(mine) && page.slug !in SlugSet(mine)
  {
    var all := mine + [page];
    if page.slug in SlugSet(mine) {
      var k :| 0 <= k < |mine| && mine[k].slug == page.slug;
      assert all[k].slug == all[|mine|].slug;
    }
    forall k | 0 <= k < |mine|
      ensures all[k] == mine[k] && mine[k].slug in SlugSet(mine)
    {
      assert mine[k] in mine;
    }
  }

  lemma {:induction false} DocsSnoc(files: map<string, string>, project: string, mine: seq<DocPage>, page: DocPage)
    ensures WithDocs(files, project, mine + [page]) ==
      WithDocs(files, project, mine)[DocFile(project, page.slug) := page.body]
    ensures DocEntries(project, mine + [page]) ==
      DocEntries(project, mine) + [ManifestDoc(page.slug, page.title, DocFile(project, page.slug), page.source)]
  {
    hide DocFile;
    var all, e := BodyEntries(project, mine + [page]), (DocFile(project, page.slug), page.body);
    assert all == BodyEntries(project, mine) + [e];
    assert all[..|mine|] == BodyEntries(project, mine) && all[|all| - 1] == e;
  }

  method ListProject(files0: map<string, string>, project: string, pages: seq<DocPage>)
    returns (ok: bool, files: map<string, string>, docs: seq<ManifestDoc>)
    ensures ok <==> SlugsDistinct(PagesIn(pages, project))
    ensures ok ==> files == WithDocs(files0, project, PagesIn(pages, project))
    ensures ok ==> docs == DocEntries(project, PagesIn(pages, project))
  {
    files, docs := files0, [];
    var seenSlug: set<string> := {};
    ghost var mine: seq<DocPage> := [];
    for i := 0 to |pages|
      invariant mine == PagesIn(pages[..i], project) && SlugsDistinct(mine) && seenSlug == SlugSet(mine)
      invariant files == WithDocs(files0, project, mine) && docs == DocEntries(project, mine)
    {
      assert pages[..i + 1][..i] == pages[..i];
      var page := pages[i];
      if page.project != project {
        continue;
      }
      SlugsSnoc(mine, page);
      SlugSetSnoc(mine, page);
      DocsSnoc(files0, project, mine, page);
      mine := mine + [page];
      if page.slug in seenSlug {
        PagesInPrefix(pages, project, i + 1);
        return false, files, docs;
      }
      seenSlug := seenSlug + {page.slug};
      var file := DocFile(project, page.slug);
      files := files[file := page.body];
      docs := docs + [ManifestDoc(page.slug, page.title, file, page.source)];
    }
    assert pages[..|pages|] == pages;
    return true, files, docs;
  }

  method ListProjects(l0: Listing, projects: seq<ProjectSpec>, pages: seq<DocPage>, source: string)
      returns (ok: bool, l: Listing)
    ensures ok <==> AddProjects(l0, projects, pages, source).Some?
    ensures ok ==> AddProjects(l0, projects, pages, source) == Some(l)
  {
    l := l0;
    for i := 0 to |projects|
      invariant AddProjects(l0, projects[..i], pages, source) == Some(l)
    {
      assert projects[..i + 1][..i] == projects[..i];
      var project := projects[i].slug;
      if project in l.projects {
        AddProjectsStops(l0, projects, pages, source, i + 1);
        return false, l;
      }
      var fine, files, docs := ListProject(l.files, project, pages);
      if !fine {
        AddProjectsStops(l0, projects, pages, source, i + 1);
        return false, l;
      }
      l := Listing(files, l.projects[project := source], l.listed + [ManifestProject(project, docs)]);
    }
    assert projects[..|projects|] == projects;
    return true, l;
  }

  // ---------- All sources ----------

  function AddSource(lower: Lowering, out: Output, src: Input): Option<Output> {
    if !IsLang(src.spec.lang) then None
    else match Walked(lower, src.spec, InfoOf(src.spec.lang), src.files, Reg(out.variants, out.snippetFiles, []))
      case None => None
      case Some((reg, pages)) =>
        match AddProjects(Listing(out.docFiles, out.projects, []), src.spec.projects, Sort(pages, PageLe),
                          src.spec.name)
        case None => None
        case Some(l) => Some(WithSource(out, src, reg, l))
  }

  function WithSource(out: Output, src: Input, reg: Reg, l: Listing): Output {
    var ms := ManifestSource(src.spec.name, src.spec.ref, src.commit, src.spec.lang, Compact(Sort(reg.topics, StrLe)),
                             l.listed);
    Output(out.sources + [ms], reg.files, l.files, reg.variants, l.projects)
  }

  const NOTHING := Output([], map[], map[], map[], map[])

  // The output after all sources
  function AddSources(lower: Lowering, inputs: seq<Input>): Option<Output>
    decreases |inputs|, 1
  {
    if inputs == [] then Some(NOTHING) else AddLast(lower, inputs)
  }

  // The last source onto the output of those before it
  function AddLast(lower: Lowering, inputs: seq<Input>): Option<Output>
    requires inputs != []
    decreases |inputs|, 0
  {
    match AddSources(lower, inputs[..|inputs| - 1])
    case None => None
    case Some(out) => AddSource(lower, out, inputs[|inputs| - 1])
  }

  lemma {:induction false} AddSourcesStops(lower: Lowering, inputs: seq<Input>, n: nat)
    requires n <= |inputs| && AddSources(lower, inputs[..n]) == None
    ensures AddSources(lower, inputs) == None
    decreases |inputs|
  {
    if n == |inputs| {
      assert inputs[..n] == inputs;
    } else {
      assert inputs[..|inputs| - 1][..n] == inputs[..n];
      AddSourcesStops(lower, inputs[..|inputs| - 1], n);
    }
  }

  method SyncSource(lower: Lowering, out: Output, src: Input) returns (r: Option<Output>)
    ensures r == AddSource(lower, out, src)
  {
    if !IsLang(src.spec.lang) {
      return None;
    }
    var info := InfoOf(src.spec.lang);
    var ok, reg, pages := WalkFiles(lower, src.spec, info, src.files, Reg(out.variants, out.snippetFiles, []));
    if !ok {
      return None;
    }
    pages := Sort(pages, PageLe);
    var fine, l := ListProjects(Listing(out.docFiles, out.projects, []), src.spec.projects, pages, src.spec.name);
    if !fine {
      return None;
    }
    return Some(WithSource(out, src, reg, l));
  }

  // The whole run; None is an error.
  method Run(lower: Lowering, inputs: seq<Input>) returns (r: Option<Output>)
    ensures r == if inputs == [] then None else AddSources(lower, inputs)
  {
    if inputs == [] {
      return None;
    }
    var out := NOTHING;
    for i := 0 to |inputs|
      invariant AddSources(lower, inputs[..i]) == Some(out)
    {
      assert inputs[..i + 1][..i] == inputs[..i];
      var next := SyncSource(lower, out, inputs[i]);
      if next == None {
        AddSourcesStops(lower, inputs, i + 1);
        return None;
      }
      out := next.value;
    }
    assert inputs[..|inputs|] == inputs;
    return Some(out);
  }
}
