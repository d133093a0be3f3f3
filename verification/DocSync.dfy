/**
Syncing the manifest's docs into the store (cmd/codepuke/syncdb.go): upsert every page, then
prune the rows of pages no longer listed.
*/
module DocSync {
  import opened Text
  import opened Manifests
  import opened DocStore

  // A page in the order the sync's loops over sources, projects and docs visit it, with the language of its source
  datatype Page = Page(lang: string, project: string, doc: ManifestDoc)

  function ProjectPages(lang: string, project: string, docs: seq<ManifestDoc>): (r: seq<Page>)
    ensures |r| == |docs| && forall i :: 0 <= i < |r| ==> r[i] == Page(lang, project, docs[i])
  {
    seq(|docs|, i requires 0 <= i < |docs| => Page(lang, project, docs[i]))
  }

  function SourcePages(lang: string, projects: seq<ManifestProject>): seq<Page> {
    if projects == [] then []
    else
      var p := projects[|projects| - 1];
      SourcePages(lang, projects[..|projects| - 1]) + ProjectPages(lang, p.slug, p.docs)
  }

  function ManifestPages(sources: seq<ManifestSource>): seq<Page> {
    if sources == [] then []
    else
      var s := sources[|sources| - 1];
      ManifestPages(sources[..|sources| - 1]) + SourcePages(s.lang, s.projects)
  }

  datatype SyncError = ReadFailed(file: string) | RenderFailed(file: string) | UnknownProject(project: string)

  // What the sync reads and what rendering gives; both may fail.
  datatype Content = Content(files: map<string, string>, render: (string, string) -> Option<string>)

  datatype Body = Body(md: string, html: string)
  datatype Prepared = Ready(body: Body) | NotReady(error: SyncError)

  function Prepare(c: Content, page: Page): Prepared {
    if page.doc.file !in c.files then NotReady(ReadFailed(page.doc.file))
    else
      var md := c.files[page.doc.file];
      match c.render(md, page.lang)
      case None => NotReady(RenderFailed(page.doc.file))
      case Some(html) => Ready(Body(md, html))
  }

  datatype Progress = Progress(tables: Tables, error: Option<SyncError>)

  ghost function UpsertPage(t: Tables, c: Content, page: Page, now: Time): Progress {
    match Prepare(c, page)
    case NotReady(error) => Progress(t, Some(error))
    case Ready(body) =>
      match AfterUpsert(t, page.project, page.doc.slug, page.doc.title, body.md, body.html, RENDER_VERSION, now)
      case None => Progress(t, Some(UnknownProject(page.project)))
      case Some(t') => Progress(t', None)
  }

  // The pages one after another, until one fails
  ghost function UpsertPages(t: Tables, c: Content, pages: seq<Page>, clock: nat -> Time): Progress {
    if pages == [] then Progress(t, None)
    else
      var k := |pages| - 1;
      var before := UpsertPages(t, c, pages[..k], clock);
      if before.error.Some? then before else UpsertPage(before.tables, c, pages[k], clock(k))
  }

  function Entries(pages: seq<Page>): set<string> {
    set p | p in pages :: KeepEntry(p.project, p.doc.slug)
  }

  lemma {:induction false} UpsertPagesStops(t: Tables, c: Content, pages: seq<Page>, clock: nat -> Time, n: nat)
    requires n <= |pages| && UpsertPages(t, c, pages[..n], clock).error.Some?
    ensures UpsertPages(t, c, pages, clock) == UpsertPages(t, c, pages[..n], clock)
    decreases |pages|
  {
    if n == |pages| {
      assert pages[..n] == pages;
    } else {
      assert pages[..|pages| - 1][..n] == pages[..n];
      UpsertPagesStops(t, c, pages[..|pages| - 1], clock, n);
    }
  }

  // ---------- The loop ----------

  datatype Outcome = Synced(pruned: int) | SyncFailed(error: SyncError)

  method SyncPage(st: Store, c: Content, page: Page, now: Time) returns (error: Option<SyncError>)
    requires Valid(st.Snapshot())
    modifies st
    ensures Valid(st.Snapshot())
    ensures Progress(st.Snapshot(), error) == UpsertPage(old(st.Snapshot()), c, page, now)
  {
    match Prepare(c, page) {
      case NotReady(e) =>
        return Some(e);
      case Ready(body) =>
        var ok := st.UpsertDoc(page.project, page.doc.slug, page.doc.title, body.md, body.html, RENDER_VERSION, now);
        return if ok then None else Some(UnknownProject(page.project));
    }
  }

  // The keys of pages, in order
  function EntryList(pages: seq<Page>): (r: seq<string>)
    ensures |r| == |pages| && forall i :: 0 <= i < |r| ==> r[i] == KeepEntry(pages[i].project, pages[i].doc.slug)
  {
    seq(|pages|, i requires 0 <= i < |pages| => KeepEntry(pages[i].project, pages[i].doc.slug))
  }

  method SyncPages(st: Store, c: Content, pages: seq<Page>, clock: nat -> Time, ghost start: Tables)
    returns (error: Option<SyncError>, keep: seq<string>)
    requires st.Snapshot() == start && Valid(start)
    modifies st
    ensures Valid(st.Snapshot())
    ensures UpsertPages(start, c, pages, clock) == Progress(st.Snapshot(), error)
    ensures error == None ==> keep == EntryList(pages)
  {
    hide UpsertPage, Valid, Prepare;
    keep := [];
    for i := 0 to |pages|
      invariant Valid(st.Snapshot())
      invariant UpsertPages(start, c, pages[..i], clock) == Progress(st.Snapshot(), None)
      invariant keep == EntryList(pages[..i])
    {
      assert pages[..i + 1][..i] == pages[..i];
      error := SyncPage(st, c, pages[i], clock(i));
      if error.Some? {
        UpsertPagesStops(start, c, pages, clock, i + 1);
        return;
      }
      keep := keep + [KeepEntry(pages[i].project, pages[i].doc.slug)];
    }
    assert pages[..|pages|] == pages;
    error := None;
  }

  // Whether the database driver sends a nil slice as a null array is up to the driver; only a
  // manifest without pages makes one. A null array prunes nothing.
  predicate PruneRuns(pages: seq<Page>, nilIsNull: bool) {
    pages != [] || !nilIsNull
  }

  ghost function Pruned(t: Tables, pages: seq<Page>, nilIsNull: bool): Tables {
    if PruneRuns(pages, nilIsNull) then AfterPrune(t, Entries(pages)) else t
  }

  // The store after a sync whose upserts succeed
  ghost function AfterSync(t: Tables, c: Content, pages: seq<Page>, clock: nat -> Time, nilIsNull: bool): Tables {
    Pruned(UpsertPages(t, c, pages, clock).tables, pages, nilIsNull)
  }

  method SyncDB(st: Store, manifest: Manifest, c: Content, clock: nat -> Time, nilIsNull: bool) returns (r: Outcome)
    requires Valid(st.Snapshot())
    modifies st
    ensures Valid(st.Snapshot())
    ensures var pages := ManifestPages(manifest.sources);
      var upserted := UpsertPages(old(st.Snapshot()), c, pages, clock);
      if upserted.error.Some? then r == SyncFailed(upserted.error.value) && st.Snapshot() == upserted.tables
      else
        && st.Snapshot() == AfterSync(old(st.Snapshot()), c, pages, clock, nilIsNull)
        && r == Synced(|upserted.tables.documents| - |st.documents|)
  {
    hide UpsertPages, ManifestPages, AfterPrune, Valid, Entries;
    var pages := ManifestPages(manifest.sources);
    var error, keep := SyncPages(st, c, pages, clock, st.Snapshot());
    if error.Some? {
      return SyncFailed(error.value);
    }
    EntriesOfList(pages);
    var pruned := st.PruneDocs(if keep == [] && nilIsNull then None else Some(set e | e in keep));
    return Synced(pruned);
  }

  lemma {:induction false} EntriesOfList(pages: seq<Page>)
    ensures (set e | e in EntryList(pages)) == Entries(pages)
  {
  }

  // ---------- What the upserts leave ----------

  ghost function PageKey(t: Tables, page: Page): Identity
    requires page.project in t.projects
  {
    DocKey(t.projects[page.project], page.doc.slug)
  }

  // The row holds what rendering the page gives.
  ghost predicate Holds(row: Row, c: Content, page: Page) {
    && Prepare(c, page).Ready?
    && row.title == page.doc.title && row.renderVersion == RENDER_VERSION
    && row.bodyMD == Prepare(c, page).body.md && row.bodyHTML == Prepare(c, page).body.html
  }

  // The rows differ in their content and update time at most.
  ghost predicate SameDocument(a: Row, b: Row) {
    b == a.(title := b.title, bodyMD := b.bodyMD, bodyHTML := b.bodyHTML, renderVersion := b.renderVersion,
            updatedAt := b.updatedAt)
  }

  ghost predicate SameOtherTables(t: Tables, t': Tables) {
    t'.projects == t.projects && t'.categories == t.categories && t'.nextCategory == t.nextCategory
      && t'.documentCategories == t.documentCategories
  }

  ghost predicate HasPage(t: Tables, pages: seq<Page>, key: Identity) {
    exists p <- pages :: p.project in t.projects && PageKey(t, p) == key
  }

  // No page after number i has this key.
  ghost predicate IsLast(t: Tables, pages: seq<Page>, i: int, key: Identity) {
    && 0 <= i < |pages| && pages[i].project in t.projects && PageKey(t, pages[i]) == key
    && forall j :: i < j < |pages| && pages[j].project in t.projects ==> PageKey(t, pages[j]) != key
  }

  // Old rows are still there and the same documents.
  ghost predicate OldRowsStay(t: Tables, t': Tables) {
    forall id <- t.documents :: id in t'.documents && SameDocument(t.documents[id], t'.documents[id])
  }

  // Rows of no page are old and unchanged.
  ghost predicate OthersUnchanged(t: Tables, t': Tables, pages: seq<Page>) {
    forall id <- t'.documents :: !HasPage(t, pages, t'.documents[id].Key()) ==>
      id in t.documents && t'.documents[id] == t.documents[id]
  }

  // The row of a page's key holds the last page with that key.
  ghost predicate LastPagesHeld(t: Tables, t': Tables, c: Content, pages: seq<Page>) {
    forall id <- t'.documents, i :: IsLast(t, pages, i, t'.documents[id].Key()) ==> Holds(t'.documents[id], c, pages[i])
  }

  ghost predicate HasRow(t: Tables, key: Identity) {
    exists id <- t.documents :: t.documents[id].Key() == key
  }

  ghost predicate PagesHaveRows(t: Tables, t': Tables, pages: seq<Page>) {
    forall p <- pages :: p.project in t.projects && HasRow(t', PageKey(t, p))
  }

  // A page that had no row got a published one.
  ghost predicate IsNewPage(row: Row) {
    row.kind == DocKind && row.project.Some? && row.version == None && row.author == "sync" && row.latest &&
      row.publishedAt.Some?
  }

  ghost predicate NewRowsPublished(t: Tables, t': Tables) {
    forall id <- t'.documents :: id !in t.documents ==> IsNewPage(t'.documents[id])
  }

  // From t to t' exactly the pages were upserted.
  ghost predicate Upserted(t: Tables, t': Tables, c: Content, pages: seq<Page>) {
    && Valid(t') && SameOtherTables(t, t') && NewRowsPublished(t, t')
    && OldRowsStay(t, t') && OthersUnchanged(t, t', pages)
    && PagesHaveRows(t, t', pages) && LastPagesHeld(t, t', c, pages)
  }

  // One row was written: a new one, or the same document's.
  ghost predicate Writes(documents: map<int, Row>, documents': map<int, Row>, id: int, key: Identity) {
    && id in documents' && documents' == documents[id := documents'[id]]
    && documents'[id].Key() == key
    && (if id in documents then SameDocument(documents[id], documents'[id]) else IsNewPage(documents'[id]))
    && (forall j <- documents :: j != id ==> documents[j].Key() != key)
  }

  lemma {:induction false} UpsertWrites(t: Tables, c: Content, page: Page, now: Time) returns (id: int)
    requires Valid(t) && UpsertPage(t, c, page, now).error == None
    ensures var t' := UpsertPage(t, c, page, now).tables;
      && Valid(t') && SameOtherTables(t, t') && page.project in t.projects
      && Writes(t.documents, t'.documents, id, PageKey(t, page))
      && Holds(t'.documents[id], c, page)
  {
    var body := Prepare(c, page).body;
    UpsertKeepsValid(t, page.project, page.doc.slug, page.doc.title, body.md, body.html, RENDER_VERSION, now);
    var r := RowWith(t.documents, PageKey(t, page));
    id := if r.Some? then r.value else t.nextDocument;
  }

  lemma {:induction false} WriteKeepsNew(t: Tables, t1: Tables, t2: Tables, page: Page, id: int)
    requires page.project in t.projects && Writes(t1.documents, t2.documents, id, PageKey(t, page))
    requires NewRowsPublished(t, t1)
    ensures NewRowsPublished(t, t2)
  {
  }

  lemma {:induction false} WriteKeepsOthers(t: Tables, t1: Tables, t2: Tables, pages: seq<Page>, page: Page, id: int)
    requires page.project in t.projects && Writes(t1.documents, t2.documents, id, PageKey(t, page))
    requires OldRowsStay(t, t1) && OthersUnchanged(t, t1, pages)
    ensures OldRowsStay(t, t2) && OthersUnchanged(t, t2, pages + [page])
  {
    var all := pages + [page];
    assert page in all && forall p <- pages :: p in all;
    forall j | j in t2.documents && !HasPage(t, all, t2.documents[j].Key())
      ensures j in t1.documents && t2.documents[j] == t1.documents[j] && !HasPage(t, pages, t2.documents[j].Key())
    {
      assert j != id;
    }
  }

  lemma {:induction false} WriteKeepsRows(t: Tables, t1: Tables, t2: Tables, pages: seq<Page>, page: Page, id: int)
    requires page.project in t.projects && Writes(t1.documents, t2.documents, id, PageKey(t, page))
    requires PagesHaveRows(t, t1, pages)
    ensures PagesHaveRows(t, t2, pages + [page])
  {
    forall p | p in pages + [page]
      ensures p.project in t.projects && HasRow(t2, PageKey(t, p))
    {
      if p in pages {
        var j :| j in t1.documents && t1.documents[j].Key() == PageKey(t, p);
        assert t2.documents[j].Key() == PageKey(t, p);
      }
    }
  }

  lemma {:induction false} WriteKeepsLast(t: Tables, t1: Tables, t2: Tables, c: Content, pages: seq<Page>, page: Page,
                                          id: int)
    requires page.project in t.projects && Writes(t1.documents, t2.documents, id, PageKey(t, page))
    requires Holds(t2.documents[id], c, page)
    requires LastPagesHeld(t, t1, c, pages)
    ensures LastPagesHeld(t, t2, c, pages + [page])
  {
    var all := pages + [page];
    forall j, i | j in t2.documents && IsLast(t, all, i, t2.documents[j].Key())
      ensures Holds(t2.documents[j], c, all[i])
    {
      LastOfLonger(t, pages, page, i, t2.documents[j].Key());
      if i < |pages| {
        assert t1.documents[j] == t2.documents[j];
      }
    }
  }

  lemma {:induction false} LastOfLonger(t: Tables, pages: seq<Page>, page: Page, i: int, key: Identity)
    requires page.project in t.projects && IsLast(t, pages + [page], i, key)
    ensures i == |pages| || (i < |pages| && key != PageKey(t, page) && IsLast(t, pages, i, key))
    ensures i == |pages| ==> key == PageKey(t, page)
  {
    var all := pages + [page];
    assert all[|pages|] == page && forall j :: 0 <= j < |pages| ==> all[j] == pages[j];
  }

  lemma {:induction false} UpsertOne(t: Tables, t1: Tables, c: Content, pages: seq<Page>, page: Page, now: Time)
    requires Upserted(t, t1, c, pages)
    requires UpsertPage(t1, c, page, now).error == None
    ensures Upserted(t, UpsertPage(t1, c, page, now).tables, c, pages + [page])
  {
    hide Valid, Holds, OldRowsStay, OthersUnchanged, NewRowsPublished, PagesHaveRows, LastPagesHeld, Writes, UpsertPage;
    var id := UpsertWrites(t1, c, page, now);
    var t2 := UpsertPage(t1, c, page, now).tables;
    assert PageKey(t1, page) == PageKey(t, page);
    WriteKeepsOthers(t, t1, t2, pages, page, id);
    WriteKeepsNew(t, t1, t2, page, id);
    WriteKeepsRows(t, t1, t2, pages, page, id);
    WriteKeepsLast(t, t1, t2, c, pages, page, id);
  }

  lemma {:induction false} NothingUpserted(t: Tables, c: Content)
    requires Valid(t)
    ensures Upserted(t, t, c, [])
  {
  }

  // Upserts that all succeed write the pages and nothing else.
  lemma {:induction false} UpsertsAre(t: Tables, c: Content, pages: seq<Page>, clock: nat -> Time)
    requires Valid(t) && UpsertPages(t, c, pages, clock).error == None
    ensures Upserted(t, UpsertPages(t, c, pages, clock).tables, c, pages)
    decreases |pages|
  {
    hide Upserted, UpsertPage, Valid;
    if pages == [] {
      NothingUpserted(t, c);
    } else {
      var k := |pages| - 1;
      UpsertsAre(t, c, pages[..k], clock);
      UpsertOne(t, UpsertPages(t, c, pages[..k], clock).tables, c, pages[..k], pages[k], clock(k));
      assert pages[..k] + [pages[k]] == pages;
    }
  }

  lemma {:induction false} UpsertsStep(t: Tables, c: Content, pages: seq<Page>, clock: nat -> Time)
    requires pages != []
    ensures var k := |pages| - 1;
      var before := UpsertPages(t, c, pages[..k], clock);
      UpsertPages(t, c, pages, clock) ==
        if before.error.Some? then before else UpsertPage(before.tables, c, pages[k], clock(k))
  {
    hide UpsertPage;
  }

  lemma {:induction false} FailedUpsertWritesNothing(t: Tables, c: Content, page: Page, now: Time)
    requires UpsertPage(t, c, page, now).error.Some?
    ensures UpsertPage(t, c, page, now).tables == t
  {
    hide AfterUpsert, Prepare;
  }

  lemma {:induction false} PrefixOfPrefix(pages: seq<Page>, k: nat, n: nat)
    requires n <= k <= |pages|
    ensures pages[..k][..n] == pages[..n] && (n == |pages| ==> pages[..n] == pages)
  {
  }

  lemma {:induction false} NoPagesUpserted(t: Tables, c: Content, pages: seq<Page>, clock: nat -> Time)
    requires pages == []
    ensures UpsertPages(t, c, pages, clock) == Progress(t, None)
  {
  }

  // The pages before the first that fails
  lemma {:induction false} CleanPrefix(t: Tables, c: Content, pages: seq<Page>, clock: nat -> Time) returns (n: nat)
    ensures n <= |pages| && UpsertPages(t, c, pages[..n], clock) ==
      Progress(UpsertPages(t, c, pages, clock).tables, None)
    ensures UpsertPages(t, c, pages, clock).error == None <==> n == |pages|
    ensures n < |pages| ==> UpsertPages(t, c, pages[..n + 1], clock).error.Some?
    decreases |pages|
  {
    hide UpsertPages, UpsertPage;
    n := |pages|;
    PrefixOfPrefix(pages, n, n);
    if pages == [] {
      NoPagesUpserted(t, c, pages, clock);
    } else if UpsertPages(t, c, pages, clock).error.Some? {
      var k := |pages| - 1;
      UpsertsStep(t, c, pages, clock);
      n := CleanPrefix(t, c, pages[..k], clock);
      PrefixOfPrefix(pages, k, n);
      if n < k {
        PrefixOfPrefix(pages, k, n + 1);
      } else {
        PrefixOfPrefix(pages, n + 1, n + 1);
        FailedUpsertWritesNothing(UpsertPages(t, c, pages[..k], clock).tables, c, pages[k], clock(k));
      }
    }
  }
}
