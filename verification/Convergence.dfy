/**
What a docs sync leaves in the store: it converges to the manifest, a second run changes nothing
but timestamps, and a run that fails deletes nothing.
*/
module Convergence {
  import opened Text
  import opened Manifests
  import opened DocStore
  import opened DocSync

  // ---------- Keep entries ----------

  predicate SlashFree(s: string) {
    '/' !in s
  }

  // The entry of a page can stand for no other page exactly when neither part has a slash.
  lemma {:induction false} EntryUnambiguousIff(project: string, slug: string)
    ensures (forall q, s :: KeepEntry(q, s) == KeepEntry(project, slug) ==> q == project && s == slug)
       <==> SlashFree(project) && SlashFree(slug)
  {
    if SlashFree(project) && SlashFree(slug) {
      forall q, s | KeepEntry(q, s) == KeepEntry(project, slug)
        ensures q == project && s == slug
      {
        SlashFreeEntry(project, slug, q, s);
      }
    } else {
      SlashInEntry(project, slug);
    }
  }

  lemma {:induction false} SlashFreeEntry(project: string, slug: string, q: string, s: string)
    requires SlashFree(project) && SlashFree(slug) && KeepEntry(q, s) == KeepEntry(project, slug)
    ensures q == project && s == slug
  {
    var e := KeepEntry(project, slug);
    assert e[|q|] == '/';
    assert forall i :: 0 <= i < |project| ==> e[i] == project[i];
    assert forall i :: |project| < i < |e| ==> e[i] == slug[i - |project| - 1];
    assert |q| == |project|;
    assert q == e[..|project|] == project;
    assert s == e[|project| + 1..] == slug;
  }

  lemma {:induction false} SlashInEntry(project: string, slug: string)
    requires !SlashFree(project) || !SlashFree(slug)
    ensures exists q, s :: KeepEntry(q, s) == KeepEntry(project, slug) && !(q == project && s == slug)
  {
    if !SlashFree(project) {
      var i :| 0 <= i < |project| && project[i] == '/';
      assert project == project[..i] + "/" + project[i + 1..];
      assert KeepEntry(project[..i], project[i + 1..] + "/" + slug) == KeepEntry(project, slug);
    } else {
      var i :| 0 <= i < |slug| && slug[i] == '/';
      assert slug == slug[..i] + "/" + slug[i + 1..];
      assert KeepEntry(project + "/" + slug[..i], slug[i + 1..]) == KeepEntry(project, slug);
    }
  }

  // ---------- When a sync succeeds ----------

  ghost predicate Syncable(t: Tables, c: Content, page: Page) {
    Prepare(c, page).Ready? && page.project in t.projects
  }

  lemma {:induction false} UpsertsKeepProjects(t: Tables, c: Content, pages: seq<Page>, clock: nat -> Time)
    ensures UpsertPages(t, c, pages, clock).tables.projects == t.projects
    decreases |pages|
  {
    if pages != [] {
      UpsertsKeepProjects(t, c, pages[..|pages| - 1], clock);
    }
  }

  // A sync reaches its prune exactly when every page can be read and rendered and its project is known.
  lemma {:induction false} SyncsIff(t: Tables, c: Content, pages: seq<Page>, clock: nat -> Time)
    ensures UpsertPages(t, c, pages, clock).error == None <==> forall p <- pages :: Syncable(t, c, p)
    decreases |pages|
  {
    hide UpsertPages, UpsertPage, Syncable;
    if pages == [] {
      NoPagesUpserted(t, c, pages, clock);
    } else {
      var k := |pages| - 1;
      SyncsIff(t, c, pages[..k], clock);
      UpsertsKeepProjects(t, c, pages[..k], clock);
      UpsertsStep(t, c, pages, clock);
      UpsertsIffSyncable(t, UpsertPages(t, c, pages[..k], clock).tables, c, pages[k], clock(k));
      assert pages == pages[..k] + [pages[k]];
    }
  }

  lemma {:induction false} UpsertsIffSyncable(t: Tables, u: Tables, c: Content, page: Page, now: Time)
    requires u.projects == t.projects
    ensures UpsertPage(u, c, page, now).error == None <==> Syncable(t, c, page)
  {
  }

  // ---------- Convergence ----------

  predicate IsProjectDoc(row: Row) {
    row.kind == DocKind && row.project.Some?
  }

  // The row's project and slug are those of a page.
  ghost predicate Listed(t: Tables, pages: seq<Page>, row: Row) {
    exists p <- pages :: p.project in t.projects && Some(t.projects[p.project]) == row.project && p.doc.slug == row.slug
  }

  // The row's keep entry is one of the manifest's.
  ghost predicate EntryKept(t: Tables, pages: seq<Page>, row: Row) {
    exists q <- t.projects :: Some(t.projects[q]) == row.project && KeepEntry(q, row.slug) in Entries(pages)
  }

  // Pruning deletes exactly the rows of projects whose entry is not kept.
  lemma {:induction false} PruneLeavesKept(u: Tables, pages: seq<Page>)
    requires Valid(u)
    ensures var r := AfterPrune(u, Entries(pages));
      && (forall id <- r.documents :: id in u.documents && r.documents[id] == u.documents[id])
      && (forall id <- u.documents :: id in r.documents <==>
          (IsProjectDoc(u.documents[id]) ==> EntryKept(u, pages, u.documents[id])))
  {
    forall id | id in u.documents
      ensures IsPruned(u.projects, u.documents[id], Entries(pages)) <==>
        IsProjectDoc(u.documents[id]) && !EntryKept(u, pages, u.documents[id])
    {
      if IsProjectDoc(u.documents[id]) {
        OneProject(u, pages, u.documents[id]);
      }
    }
  }

  // What a sync's prune leaves, when it runs and when it does not
  lemma {:induction false} PrunedLeaves(u: Tables, pages: seq<Page>, nilIsNull: bool)
    requires Valid(u)
    ensures var r := Pruned(u, pages, nilIsNull);
      && Valid(r) && r.projects == u.projects
      && (forall id <- r.documents :: id in u.documents && r.documents[id] == u.documents[id])
      && (forall id <- u.documents :: (IsProjectDoc(u.documents[id]) ==> EntryKept(u, pages, u.documents[id])) ==>
          id in r.documents)
      && (PruneRuns(pages, nilIsNull) ==> forall id <- r.documents :: IsProjectDoc(u.documents[id]) ==>
          EntryKept(u, pages, u.documents[id]))
  {
    hide Valid, EntryKept, IsProjectDoc;
    PruneKeepsValid(u, Entries(pages));
    PruneLeavesKept(u, pages);
  }

  lemma {:induction false} OneProject(u: Tables, pages: seq<Page>, row: Row)
    requires Valid(u) && IsProjectDoc(row) && row.project.value in u.projects.Values
    ensures IsPruned(u.projects, row, Entries(pages)) <==> !EntryKept(u, pages, row)
  {
    var project :| project in u.projects && u.projects[project] == row.project.value;
    assert forall q <- u.projects :: Some(u.projects[q]) == row.project ==> q == project;
  }

  // A listed row's entry is kept, whatever the manifest.
  lemma {:induction false} ListedIsKept(t: Tables, pages: seq<Page>, row: Row)
    requires Listed(t, pages, row)
    ensures EntryKept(t, pages, row)
  {
    var p :| p in pages && p.project in t.projects && Some(t.projects[p.project]) == row.project &&
      p.doc.slug == row.slug;
    assert KeepEntry(p.project, row.slug) in Entries(pages);
  }

  // The key's one row, which holds the last page with that key
  ghost predicate HoldsLast(t: Tables, r: Tables, c: Content, pages: seq<Page>, i: int, id: int) {
    && 0 <= i < |pages| && pages[i].project in t.projects && id in r.documents
    && r.documents[id].Key() == PageKey(t, pages[i])
    && (forall other <- r.documents :: r.documents[other].Key() == PageKey(t, pages[i]) ==> other == id)
    && (IsLast(t, pages, i, PageKey(t, pages[i])) ==> Holds(r.documents[id], c, pages[i]))
  }

  ghost predicate PageHeld(t: Tables, r: Tables, c: Content, pages: seq<Page>, i: int) {
    exists id :: HoldsLast(t, r, c, pages, i, id)
  }

  ghost predicate EveryPageHeld(t: Tables, r: Tables, c: Content, pages: seq<Page>) {
    forall i :: 0 <= i < |pages| ==> PageHeld(t, r, c, pages, i)
  }

  ghost predicate OnlyListedDocs(r: Tables, pages: seq<Page>) {
    forall id <- r.documents :: IsProjectDoc(r.documents[id]) ==> Listed(r, pages, r.documents[id])
  }

  // Rows outside the projects' docs are the same before and after.
  ghost predicate OthersUntouched(t: Tables, r: Tables) {
    && (forall id <- t.documents :: !IsProjectDoc(t.documents[id]) ==>
        id in r.documents && r.documents[id] == t.documents[id])
    && (forall id <- r.documents :: !IsProjectDoc(r.documents[id]) ==>
        id in t.documents && r.documents[id] == t.documents[id])
  }

  lemma {:induction false} PagesHeldAfter(t: Tables, u: Tables, r: Tables, c: Content, pages: seq<Page>)
    requires Valid(u) && u.projects == t.projects
    requires PagesHaveRows(t, u, pages) && LastPagesHeld(t, u, c, pages)
    requires forall id <- r.documents :: id in u.documents && r.documents[id] == u.documents[id]
    requires forall id <- u.documents :: (IsProjectDoc(u.documents[id]) ==> EntryKept(u, pages, u.documents[id])) ==>
      id in r.documents
    ensures EveryPageHeld(t, r, c, pages)
  {
    forall i | 0 <= i < |pages|
      ensures PageHeld(t, r, c, pages, i)
    {
      var key := PageKey(t, pages[i]);
      assert HasRow(u, key);
      var id :| id in u.documents && u.documents[id].Key() == key;
      ListedIsKept(u, pages, u.documents[id]);
      assert HoldsLast(t, r, c, pages, i, id);
    }
  }

  lemma {:induction false} OthersUntouchedAfter(t: Tables, u: Tables, r: Tables, pages: seq<Page>)
    requires OldRowsStay(t, u) && OthersUnchanged(t, u, pages)
    requires forall id <- r.documents :: id in u.documents && r.documents[id] == u.documents[id]
    requires forall id <- u.documents ::
      (IsProjectDoc(u.documents[id]) ==> EntryKept(u, pages, u.documents[id])) ==> id in r.documents
    ensures OthersUntouched(t, r)
  {
    hide EntryKept;
    forall id | id in u.documents && !IsProjectDoc(u.documents[id])
      ensures id in t.documents && t.documents[id] == u.documents[id]
    {
      assert !HasPage(t, pages, u.documents[id].Key());
    }
    forall id | id in t.documents && !IsProjectDoc(t.documents[id])
      ensures id in u.documents && !IsProjectDoc(u.documents[id])
    {
      assert SameDocument(t.documents[id], u.documents[id]);
    }
  }

  // After a successful sync every page has exactly one row, which holds the last page of its key,
  // and all rows outside the projects' docs are as they were.
  lemma {:induction false} SyncConverges(t: Tables, c: Content, pages: seq<Page>, clock: nat -> Time, nilIsNull: bool)
    requires Valid(t) && UpsertPages(t, c, pages, clock).error == None
    ensures var r := AfterSync(t, c, pages, clock, nilIsNull);
      && Valid(r) && r.projects == t.projects
      && EveryPageHeld(t, r, c, pages)
      && OthersUntouched(t, r)
  {
    var u := UpsertPages(t, c, pages, clock).tables;
    var r := AfterSync(t, c, pages, clock, nilIsNull);
    UpsertsAre(t, c, pages, clock);
    PrunedLeaves(u, pages, nilIsNull);
    hide Pruned, UpsertPages, EntryKept, Valid, OldRowsStay, OthersUnchanged, LastPagesHeld,
      PagesHaveRows, EveryPageHeld, OthersUntouched;
    OthersUntouchedAfter(t, u, r, pages);
    PagesHeldAfter(t, u, r, c, pages);
  }

  // ---------- When only listed rows are left ----------

  ghost predicate NamesPage(pages: seq<Page>, project: string, slug: string) {
    exists p <- pages :: IsPageOf(p, project, slug)
  }

  // A kept entry that a known project can make is that of a page of the project.
  ghost predicate Unambiguous(projects: map<string, int>, pages: seq<Page>) {
    forall q <- projects, s {:trigger KeepEntry(q, s)} :: KeepEntry(q, s) in Entries(pages) ==> NamesPage(pages, q, s)
  }

  ghost predicate InjectiveIds(projects: map<string, int>) {
    forall p, q :: p in projects && q in projects && projects[p] == projects[q] ==> p == q
  }

  lemma {:induction false} KeptIsListed(t: Tables, pages: seq<Page>, row: Row)
    requires Unambiguous(t.projects, pages) && EntryKept(t, pages, row)
    ensures Listed(t, pages, row)
  {
    var q :| q in t.projects && Some(t.projects[q]) == row.project && KeepEntry(q, row.slug) in Entries(pages);
    assert NamesPage(pages, q, row.slug);
  }

  lemma {:induction false} SameEntryKept(t: Tables, u: Tables, pages: seq<Page>, a: Row, b: Row)
    requires t.projects == u.projects && SameDocument(a, b)
    ensures EntryKept(t, pages, a) <==> EntryKept(u, pages, b)
    ensures Listed(t, pages, a) <==> Listed(u, pages, b)
  {
  }

  // A row whose entry is kept survives the sync, listed or not, and so does every row of a sync
  // that does not prune.
  lemma {:induction false} KeptSurvives(t: Tables, c: Content, pages: seq<Page>, clock: nat -> Time, nilIsNull: bool,
                                        id: int)
    requires Valid(t) && UpsertPages(t, c, pages, clock).error == None
    requires id in t.documents && (EntryKept(t, pages, t.documents[id]) || !PruneRuns(pages, nilIsNull))
    ensures var r := AfterSync(t, c, pages, clock, nilIsNull);
      id in r.documents && SameDocument(t.documents[id], r.documents[id])
  {
    hide Valid, UpsertPages, EntryKept;
    var u := UpsertPages(t, c, pages, clock).tables;
    UpsertsAre(t, c, pages, clock);
    UpsertsKeepProjects(t, c, pages, clock);
    PrunedLeaves(u, pages, nilIsNull);
    assert SameDocument(t.documents[id], u.documents[id]);
    SameEntryKept(t, u, pages, t.documents[id], u.documents[id]);
  }

  // The row is one the sync would have to prune, but keeps.
  ghost predicate IsKeptStale(t: Tables, pages: seq<Page>, nilIsNull: bool, row: Row) {
    && IsProjectDoc(row) && !Listed(t, pages, row)
    && (EntryKept(t, pages, row) || !PruneRuns(pages, nilIsNull))
  }

  ghost predicate NothingStaleKept(t: Tables, pages: seq<Page>, nilIsNull: bool) {
    forall id <- t.documents :: !IsKeptStale(t, pages, nilIsNull, t.documents[id])
  }

  lemma {:induction false} UpsertedIsListed(t: Tables, pages: seq<Page>, row: Row)
    requires HasPage(t, pages, row.Key())
    ensures Listed(t, pages, row)
  {
    var p :| p in pages && p.project in t.projects && PageKey(t, p) == row.Key();
  }

  // For each store: a sync leaves the projects only rows of listed pages exactly when the store
  // holds no stale row that it keeps.
  lemma {:induction false} OnlyListedExactly(t: Tables, c: Content, pages: seq<Page>, clock: nat -> Time,
                                             nilIsNull: bool)
    requires Valid(t) && UpsertPages(t, c, pages, clock).error == None
    ensures OnlyListedDocs(AfterSync(t, c, pages, clock, nilIsNull), pages) <==> NothingStaleKept(t, pages, nilIsNull)
  {
    hide Valid, UpsertPages, EntryKept, Listed, HasPage;
    var u, r := UpsertPages(t, c, pages, clock).tables, AfterSync(t, c, pages, clock, nilIsNull);
    UpsertsAre(t, c, pages, clock);
    UpsertsKeepProjects(t, c, pages, clock);
    PrunedLeaves(u, pages, nilIsNull);
    hide Pruned;
    if OnlyListedDocs(r, pages) {
      forall id | id in t.documents
        ensures !IsKeptStale(t, pages, nilIsNull, t.documents[id])
      {
        if IsKeptStale(t, pages, nilIsNull, t.documents[id]) {
          KeptSurvives(t, c, pages, clock, nilIsNull, id);
          SameEntryKept(t, r, pages, t.documents[id], r.documents[id]);
        }
      }
    }
    if NothingStaleKept(t, pages, nilIsNull) {
      forall id | id in r.documents && IsProjectDoc(r.documents[id])
        ensures Listed(r, pages, r.documents[id])
      {
        LeftIsListed(t, u, r, pages, nilIsNull, id);
      }
    }
  }

  lemma {:induction false} LeftIsListed(t: Tables, u: Tables, r: Tables, pages: seq<Page>, nilIsNull: bool, id: int)
    requires NothingStaleKept(t, pages, nilIsNull) && OthersUnchanged(t, u, pages)
    requires u.projects == t.projects && r.projects == t.projects
    requires id in r.documents && id in u.documents && r.documents[id] == u.documents[id] &&
      IsProjectDoc(u.documents[id])
    requires PruneRuns(pages, nilIsNull) ==> EntryKept(u, pages, u.documents[id])
    ensures Listed(r, pages, r.documents[id])
  {
    hide EntryKept, Listed, HasPage;
    var row := u.documents[id];
    if HasPage(t, pages, row.Key()) {
      UpsertedIsListed(t, pages, row);
    } else {
      assert t.documents[id] == row;
      SameEntryKept(t, u, pages, row, row);
      assert !IsKeptStale(t, pages, nilIsNull, row);
    }
    SameEntryKept(t, r, pages, row, row);
  }

  // The store with the projects and one stale docs page
  function StaleStore(projects: map<string, int>, q: string, s: string): Tables
    requires q in projects
  {
    var row := Row(DocKind, Some(projects[q]), s, None, "", "sync", "", "", RENDER_VERSION, true, Some(0), 0);
    Tables(projects, map[1 := row], 2, map[], 1, {})
  }

  // Whatever the store held before, a sync leaves the projects only rows of listed pages: this is
  // so exactly when the manifest is unambiguous for the known projects and the prune runs, unless
  // there are no projects.
  lemma {:induction false} OnlyListedIff(projects: map<string, int>, c: Content, pages: seq<Page>, clock: nat -> Time,
                                         nilIsNull: bool)
    requires InjectiveIds(projects) && forall p <- pages :: Prepare(c, p).Ready? && p.project in projects
    ensures (forall t :: Valid(t) && t.projects == projects ==>
             OnlyListedDocs(AfterSync(t, c, pages, clock, nilIsNull), pages))
       <==> Unambiguous(projects, pages) && (PruneRuns(pages, nilIsNull) || projects == map[])
  {
    if Unambiguous(projects, pages) && (PruneRuns(pages, nilIsNull) || projects == map[]) {
      forall t | Valid(t) && t.projects == projects
        ensures OnlyListedDocs(AfterSync(t, c, pages, clock, nilIsNull), pages)
      {
        SyncsIff(t, c, pages, clock);
        UnambiguousKeepsNoneStale(t, pages, nilIsNull);
        OnlyListedExactly(t, c, pages, clock, nilIsNull);
      }
    } else {
      var q, s := StaleName(projects, pages, nilIsNull);
      SyncsIff(StaleStore(projects, q, s), c, pages, clock);
      StaleRowSurvives(projects, c, pages, clock, nilIsNull, q, s);
    }
  }

  lemma {:induction false} UnambiguousKeepsNoneStale(t: Tables, pages: seq<Page>, nilIsNull: bool)
    requires Valid(t) && Unambiguous(t.projects, pages) && (PruneRuns(pages, nilIsNull) || t.projects == map[])
    ensures NothingStaleKept(t, pages, nilIsNull)
  {
    hide Unambiguous, EntryKept, Listed;
    forall id | id in t.documents && IsProjectDoc(t.documents[id])
      ensures t.projects != map[] && (EntryKept(t, pages, t.documents[id]) ==> Listed(t, pages, t.documents[id]))
    {
      assert t.documents[id].project.value in t.projects.Values;
      if EntryKept(t, pages, t.documents[id]) {
        KeptIsListed(t, pages, t.documents[id]);
      }
    }
  }

  // A name that no page has, but whose row the sync keeps
  lemma {:induction false} StaleName(projects: map<string, int>, pages: seq<Page>, nilIsNull: bool)
      returns (q: string, s: string)
    requires !(Unambiguous(projects, pages) && (PruneRuns(pages, nilIsNull) || projects == map[]))
    ensures q in projects && !NamesPage(pages, q, s) &&
      (KeepEntry(q, s) in Entries(pages) || !PruneRuns(pages, nilIsNull))
  {
    if !Unambiguous(projects, pages) {
      q, s :| q in projects && KeepEntry(q, s) in Entries(pages) && !NamesPage(pages, q, s);
    } else {
      q, s :| q in projects && s == "";
    }
  }

  // A stale page that no page names, but whose entry is kept or which nothing prunes, is still
  // there after the sync.
  lemma {:induction false} StaleRowSurvives(projects: map<string, int>, c: Content, pages: seq<Page>,
                                            clock: nat -> Time, nilIsNull: bool, q: string, s: string)
    requires InjectiveIds(projects) && q in projects
    requires UpsertPages(StaleStore(projects, q, s), c, pages, clock).error == None
    requires (KeepEntry(q, s) in Entries(pages) || !PruneRuns(pages, nilIsNull)) && !NamesPage(pages, q, s)
    ensures var t := StaleStore(projects, q, s);
      Valid(t) && !OnlyListedDocs(AfterSync(t, c, pages, clock, nilIsNull), pages)
  {
    hide UpsertPages;
    var t := StaleStore(projects, q, s);
    StaleStoreValid(projects, q, s);
    StaleIsUnlisted(projects, pages, q, s);
    assert IsKeptStale(t, pages, nilIsNull, t.documents[1]);
    OnlyListedExactly(t, c, pages, clock, nilIsNull);
  }

  lemma {:induction false} StaleStoreValid(projects: map<string, int>, q: string, s: string)
    requires InjectiveIds(projects) && q in projects
    ensures Valid(StaleStore(projects, q, s))
  {
  }

  lemma {:induction false} StaleIsUnlisted(projects: map<string, int>, pages: seq<Page>, q: string, s: string)
    requires InjectiveIds(projects) && q in projects && !NamesPage(pages, q, s)
    ensures var t := StaleStore(projects, q, s); !Listed(t, pages, t.documents[1])
  {
    forall p | p in pages && p.project in projects && p.doc.slug == s
      ensures projects[p.project] != projects[q]
    {
      assert !IsPageOf(p, q, s);
    }
  }

  // A slash in a slug confuses the prune: the page b/c of project a keeps the stale page c of
  // project a/b, which no page names.
  lemma {:induction false} SlashKeepsStaleRow(c: Content, lang: string, title: string, file: string, source: string,
                                              clock: nat -> Time, nilIsNull: bool)
    requires Prepare(c, Page(lang, "a", ManifestDoc("b/c", title, file, source))).Ready?
    ensures var projects, pages := map["a" := 1, "a/b" := 2],
      [Page(lang, "a", ManifestDoc("b/c", title, file, source))];
      var t := StaleStore(projects, "a/b", "c");
      && Valid(t) && UpsertPages(t, c, pages, clock).error == None
      && !OnlyListedDocs(AfterSync(t, c, pages, clock, nilIsNull), pages)
  {
    hide UpsertPages, AfterSync, OnlyListedDocs, Valid, Prepare;
    var projects, page := map["a" := 1, "a/b" := 2], Page(lang, "a", ManifestDoc("b/c", title, file, source));
    var t := StaleStore(projects, "a/b", "c");
    assert KeepEntry("a", "b/c") == KeepEntry("a/b", "c");
    assert page in [page] && KeepEntry(page.project, page.doc.slug) in Entries([page]);
    SyncsIff(t, c, [page], clock);
    assert Syncable(t, c, page);
    StaleRowSurvives(projects, c, [page], clock, nilIsNull, "a/b", "c");
  }

  // A manifest without pages whose keep list is sent as a null array prunes nothing: the stale
  // page x of project a stays and is served.
  lemma {:induction false} NullArrayKeepsStaleRow(c: Content, clock: nat -> Time)
    ensures var t := StaleStore(map["a" := 1], "a", "x");
      && Valid(t) && Unambiguous(t.projects, []) && UpsertPages(t, c, [], clock).error == None
      && AfterSync(t, c, [], clock, true) == t
      && !OnlyListedDocs(t, []) && DocIds(t, "a", "x") == {1}
  {
    var t := StaleStore(map["a" := 1], "a", "x");
    StaleStoreValid(map["a" := 1], "a", "x");
    assert IsProjectDoc(t.documents[1]) && !Listed(t, [], t.documents[1]);
    assert forall id :: id in DocIds(t, "a", "x") <==> id in {1};
  }

  // Sent as an empty array it deletes every docs row of the projects and no other.
  lemma {:induction false} EmptyArrayPrunesAll(t: Tables, c: Content, clock: nat -> Time, id: int)
    requires Valid(t)
    ensures var r := AfterSync(t, c, [], clock, false);
      && (id in r.documents <==> id in t.documents && !IsProjectDoc(t.documents[id]))
      && (id in r.documents ==> r.documents[id] == t.documents[id])
  {
    NoPagesUpserted(t, c, [], clock);
    assert Entries([]) == {};
    if id in t.documents && IsProjectDoc(t.documents[id]) {
      assert t.documents[id].project.value in t.projects.Values;
      assert IsPruned(t.projects, t.documents[id], {});
    }
  }

  // ---------- Slugs without slashes ----------

  ghost predicate SlashFreeDocs(t: Tables) {
    forall id <- t.documents :: IsProjectDoc(t.documents[id]) ==> SlashFree(t.documents[id].slug)
  }

  predicate SlashFreeSlugs(pages: seq<Page>) {
    forall p <- pages :: SlashFree(p.doc.slug)
  }

  // Then the last slash of an entry separates its parts.
  lemma {:induction false} LastSlashSeparates(project: string, slug: string, q: string, s: string)
    requires SlashFree(slug) && SlashFree(s) && KeepEntry(project, slug) == KeepEntry(q, s)
    ensures project == q && slug == s
  {
    var e := KeepEntry(project, slug);
    assert e[|project|] == '/' && e[|q|] == '/';
    assert forall i :: |project| < i < |e| ==> e[i] == slug[i - |project| - 1];
    assert forall i :: |q| < i < |e| ==> e[i] == s[i - |q| - 1];
    assert |q| == |project|;
    assert project == e[..|q|] == q;
    assert slug == e[|q| + 1..] == s;
  }

  // With slash-free slugs in the store and in the manifest, a prune keeps listed rows only,
  // whatever the projects are called.
  lemma {:induction false} SlashFreeKeepsNoneStale(t: Tables, pages: seq<Page>, nilIsNull: bool)
    requires SlashFreeDocs(t) && SlashFreeSlugs(pages) && PruneRuns(pages, nilIsNull)
    ensures NothingStaleKept(t, pages, nilIsNull)
  {
    forall id | id in t.documents && IsProjectDoc(t.documents[id]) && EntryKept(t, pages, t.documents[id])
      ensures Listed(t, pages, t.documents[id])
    {
      var row := t.documents[id];
      var q :| q in t.projects && Some(t.projects[q]) == row.project && KeepEntry(q, row.slug) in Entries(pages);
      var p :| p in pages && KeepEntry(p.project, p.doc.slug) == KeepEntry(q, row.slug);
      LastSlashSeparates(p.project, p.doc.slug, q, row.slug);
    }
  }

  predicate SlashFreePages(pages: seq<Page>) {
    forall p <- pages :: SlashFree(p.project) && SlashFree(p.doc.slug)
  }

  // A slash-free manifest is unambiguous for any projects.
  lemma {:induction false} SlashFreeIsUnambiguous(projects: map<string, int>, pages: seq<Page>)
    requires SlashFreePages(pages)
    ensures Unambiguous(projects, pages)
  {
    forall q, s | q in projects && KeepEntry(q, s) in Entries(pages)
      ensures NamesPage(pages, q, s)
    {
      var p :| p in pages && KeepEntry(p.project, p.doc.slug) == KeepEntry(q, s);
      SlashFreeEntry(p.project, p.doc.slug, q, s);
      assert IsPageOf(p, q, s);
    }
  }

  // ---------- What readers see ----------

  // Docs rows are unversioned and latest, as the sync writes them.
  ghost predicate PlainDocs(t: Tables) {
    forall id <- t.documents :: IsProjectDoc(t.documents[id]) ==>
      t.documents[id].version == None && t.documents[id].latest
  }

  predicate IsPageOf(page: Page, project: string, slug: string) {
    page.project == project && page.doc.slug == slug
  }

  predicate IsLastOf(pages: seq<Page>, i: int, project: string, slug: string) {
    && 0 <= i < |pages| && IsPageOf(pages[i], project, slug)
    && forall j :: i < j < |pages| ==> !IsPageOf(pages[j], project, slug)
  }

  lemma {:induction false} SyncKeepsPlainDocs(t: Tables, c: Content, pages: seq<Page>, clock: nat -> Time,
                                              nilIsNull: bool)
    requires Valid(t) && PlainDocs(t) && UpsertPages(t, c, pages, clock).error == None
    ensures PlainDocs(AfterSync(t, c, pages, clock, nilIsNull))
  {
    UpsertsAre(t, c, pages, clock);
    PrunedLeaves(UpsertPages(t, c, pages, clock).tables, pages, nilIsNull);
    hide Pruned, UpsertPages, Valid;
  }

  // Looking the project and slug up finds the one row, and it holds the page.
  ghost predicate Serves(t: Tables, project: string, slug: string, id: int, c: Content, page: Page) {
    id in t.documents && DocIds(t, project, slug) == {id} && Holds(t.documents[id], c, page)
  }

  // After a sync a reader finds each page of the manifest, with its last rendering. When the prune
  // runs he finds nothing under any other project and slug, unless they make the entry of a page;
  // when it does not, he finds what was there before.
  lemma {:induction false} SyncedDocsServed(t: Tables, c: Content, pages: seq<Page>, clock: nat -> Time,
                                            nilIsNull: bool, project: string, slug: string)
    requires Valid(t) && PlainDocs(t) && UpsertPages(t, c, pages, clock).error == None
    ensures var r := AfterSync(t, c, pages, clock, nilIsNull);
      var ids := DocIds(r, project, slug);
      && (NamesPage(pages, project, slug) ==> ids != {})
      && (PruneRuns(pages, nilIsNull) && KeepEntry(project, slug) !in Entries(pages) ==> ids == {})
      && (!PruneRuns(pages, nilIsNull) ==> ids == DocIds(t, project, slug))
      && forall i :: IsLastOf(pages, i, project, slug) ==> exists id :: Serves(r, project, slug, id, c, pages[i])
  {
    hide Valid, UpsertPages, AfterSync, PlainDocs, DocIds;
    var r := AfterSync(t, c, pages, clock, nilIsNull);
    SyncConverges(t, c, pages, clock, nilIsNull);
    SyncKeepsPlainDocs(t, c, pages, clock, nilIsNull);
    SyncsIff(t, c, pages, clock);
    if !PruneRuns(pages, nilIsNull) {
      NothingPruned(t, c, pages, clock, nilIsNull);
    } else if KeepEntry(project, slug) !in Entries(pages) {
      UnkeptNotServed(t, c, pages, clock, nilIsNull, project, slug);
    }
    forall i | 0 <= i < |pages| && IsPageOf(pages[i], project, slug)
      ensures DocIds(r, project, slug) != {}
      ensures IsLastOf(pages, i, project, slug) ==> exists id :: Serves(r, project, slug, id, c, pages[i])
    {
      assert Syncable(t, c, pages[i]);
      assert PageHeld(t, r, c, pages, i);
      var id :| HoldsLast(t, r, c, pages, i, id);
      PageServed(t, r, c, pages, i, id);
      assert id in {id};
      assert IsLastOf(pages, i, project, slug) ==> Serves(r, project, slug, id, c, pages[i]);
    }
    if NamesPage(pages, project, slug) {
      var p :| p in pages && IsPageOf(p, project, slug);
      var i :| 0 <= i < |pages| && pages[i] == p;
      assert IsPageOf(pages[i], project, slug);
    }
  }

  lemma {:induction false} NothingPruned(t: Tables, c: Content, pages: seq<Page>, clock: nat -> Time, nilIsNull: bool)
    requires !PruneRuns(pages, nilIsNull)
    ensures AfterSync(t, c, pages, clock, nilIsNull) == t
  {
  }

  lemma {:induction false} UnkeptNotServed(t: Tables, c: Content, pages: seq<Page>, clock: nat -> Time, nilIsNull: bool,
                                           project: string, slug: string)
    requires Valid(t) && UpsertPages(t, c, pages, clock).error == None
    requires PruneRuns(pages, nilIsNull) && KeepEntry(project, slug) !in Entries(pages)
    ensures DocIds(AfterSync(t, c, pages, clock, nilIsNull), project, slug) == {}
  {
    hide UpsertPages;
    var u, r := UpsertPages(t, c, pages, clock).tables, AfterSync(t, c, pages, clock, nilIsNull);
    UpsertsAre(t, c, pages, clock);
    PrunedLeaves(u, pages, nilIsNull);
    hide Pruned;
    forall id | id in r.documents
      ensures !IsDocPage(r.projects, r.documents[id], project, slug)
    {
      if IsProjectDoc(r.documents[id]) && r.documents[id].slug == slug {
        var q :| q in u.projects && Some(u.projects[q]) == r.documents[id].project &&
          KeepEntry(q, slug) in Entries(pages);
        assert q != project;
      }
    }
    assert forall id :: id !in DocIds(r, project, slug);
  }

  lemma {:induction false} PageServed(t: Tables, r: Tables, c: Content, pages: seq<Page>, i: int, id: int)
    requires Valid(t) && r.projects == t.projects && PlainDocs(r) && HoldsLast(t, r, c, pages, i, id)
    ensures DocIds(r, pages[i].project, pages[i].doc.slug) == {id}
    ensures IsLastOf(pages, i, pages[i].project, pages[i].doc.slug) ==> Holds(r.documents[id], c, pages[i])
  {
    var project, slug, key := pages[i].project, pages[i].doc.slug, PageKey(t, pages[i]);
    assert IsProjectDoc(r.documents[id]);
    forall other | other in DocIds(r, project, slug)
      ensures other == id
    {
      assert IsProjectDoc(r.documents[other]);
      assert r.documents[other].Key() == key;
    }
    if IsLastOf(pages, i, project, slug) {
      assert IsLast(t, pages, i, key);
    }
  }

  // ---------- A second run ----------

  ghost predicate SameButUpdateTime(a: Row, b: Row) {
    b == a.(updatedAt := b.updatedAt)
  }

  lemma {:induction false} SomeIsLast(t: Tables, pages: seq<Page>, key: Identity) returns (i: int)
    requires HasPage(t, pages, key)
    ensures IsLast(t, pages, i, key)
    decreases |pages|
  {
    var k := |pages| - 1;
    if pages[k].project in t.projects && PageKey(t, pages[k]) == key {
      i := k;
    } else {
      assert pages == pages[..k] + [pages[k]];
      i := SomeIsLast(t, pages[..k], key);
    }
  }

  // Upserting the same pages again adds no row and changes only update times.
  lemma {:induction false} UpsertAgain(r: Tables, u: Tables, c: Content, pages: seq<Page>)
    requires Upserted(r, u, c, pages) && EveryPageHeld(r, r, c, pages)
    ensures u.documents.Keys == r.documents.Keys
    ensures forall id <- r.documents :: SameButUpdateTime(r.documents[id], u.documents[id])
  {
    forall id | id in u.documents
      ensures id in r.documents && SameButUpdateTime(r.documents[id], u.documents[id])
    {
      UpsertAgainRow(r, u, c, pages, id);
    }
    assert forall id <- r.documents :: id in u.documents;
  }

  lemma {:induction false} UpsertAgainRow(r: Tables, u: Tables, c: Content, pages: seq<Page>, id: int)
    requires KeysUnique(u.documents) && OldRowsStay(r, u) && OthersUnchanged(r, u, pages) &&
      LastPagesHeld(r, u, c, pages)
    requires EveryPageHeld(r, r, c, pages) && id in u.documents
    ensures id in r.documents && SameButUpdateTime(r.documents[id], u.documents[id])
  {
    var key := u.documents[id].Key();
    if HasPage(r, pages, key) {
      var i := SomeIsLast(r, pages, key);
      assert PageHeld(r, r, c, pages, i);
      var held :| HoldsLast(r, r, c, pages, i, held);
      assert SameDocument(r.documents[held], u.documents[held]);
      assert u.documents[held].Key() == key;
      assert held == id;
      assert Holds(u.documents[id], c, pages[i]);
    }
  }

  // Syncing the same content again succeeds, prunes nothing and changes only update times.
  lemma {:induction false} SecondSyncChangesNothing(t: Tables, c: Content, pages: seq<Page>, clock: nat -> Time,
                                                    clock': nat -> Time, nilIsNull: bool)
    requires Valid(t) && UpsertPages(t, c, pages, clock).error == None
    ensures var r := AfterSync(t, c, pages, clock, nilIsNull);
      var u := UpsertPages(r, c, pages, clock');
      && u.error == None
      && AfterSync(r, c, pages, clock', nilIsNull) == u.tables
      && SameOtherTables(r, u.tables)
      && u.tables.documents.Keys == r.documents.Keys
      && forall id <- r.documents :: SameButUpdateTime(r.documents[id], u.tables.documents[id])
  {
    var r := AfterSync(t, c, pages, clock, nilIsNull);
    SyncConverges(t, c, pages, clock, nilIsNull);
    SyncsIff(t, c, pages, clock);
    SyncsIff(r, c, pages, clock');
    var u := UpsertPages(r, c, pages, clock').tables;
    UpsertsAre(r, c, pages, clock');
    HeldInItself(t, r, c, pages);
    UpsertAgain(r, u, c, pages);
    UpsertsAre(t, c, pages, clock);
    PrunesNothing(UpsertPages(t, c, pages, clock).tables, r, u, pages, nilIsNull);
  }

  lemma {:induction false} HeldInItself(t: Tables, r: Tables, c: Content, pages: seq<Page>)
    requires r.projects == t.projects && EveryPageHeld(t, r, c, pages)
    ensures EveryPageHeld(r, r, c, pages)
  {
    forall i | 0 <= i < |pages|
      ensures PageHeld(r, r, c, pages, i)
    {
      assert PageHeld(t, r, c, pages, i);
      var id :| HoldsLast(t, r, c, pages, i, id);
      assert HoldsLast(r, r, c, pages, i, id);
    }
  }

  // Pruning with the same entries again deletes nothing.
  lemma {:induction false} PrunesNothing(t: Tables, r: Tables, u: Tables, pages: seq<Page>, nilIsNull: bool)
    requires Valid(t) && r == Pruned(t, pages, nilIsNull)
    requires Valid(u) && u.projects == r.projects && u.documents.Keys == r.documents.Keys
    requires forall id <- r.documents :: SameButUpdateTime(r.documents[id], u.documents[id])
    ensures Pruned(u, pages, nilIsNull) == u
  {
    if PruneRuns(pages, nilIsNull) {
      var v := AfterPrune(u, Entries(pages));
      forall id | id in u.documents
        ensures id in v.documents
      {
        assert SameButUpdateTime(r.documents[id], u.documents[id]);
        assert !IsPruned(t.projects, t.documents[id], Entries(pages));
      }
      assert v.documents == u.documents;
      assert v.documentCategories == u.documentCategories;
    }
  }

  // ---------- A failed run ----------

  // What is wrong with a page: its file is missing, its text does not render, or nobody knows its project.
  ghost predicate IsErrorOf(t: Tables, c: Content, page: Page, error: SyncError) {
    if page.doc.file !in c.files then error == ReadFailed(page.doc.file)
    else if c.render(c.files[page.doc.file], page.lang) == None then error == RenderFailed(page.doc.file)
    else page.project !in t.projects && error == UnknownProject(page.project)
  }

  lemma {:induction false} ErrorOfPage(t: Tables, u: Tables, c: Content, page: Page, now: Time)
    requires u.projects == t.projects && UpsertPage(u, c, page, now).error.Some?
    ensures IsErrorOf(t, c, page, UpsertPage(u, c, page, now).error.value)
  {
  }

  lemma {:induction false} ErrorOfLast(t: Tables, c: Content, pages: seq<Page>, clock: nat -> Time, n: nat)
    requires n < |pages| && UpsertPages(t, c, pages[..n], clock).error == None
    requires UpsertPages(t, c, pages[..n + 1], clock).error.Some?
    ensures UpsertPages(t, c, pages, clock).error.Some?
    ensures IsErrorOf(t, c, pages[n], UpsertPages(t, c, pages, clock).error.value)
  {
    hide UpsertPages, UpsertPage, IsErrorOf;
    UpsertPagesStops(t, c, pages, clock, n + 1);
    UpsertsStep(t, c, pages[..n + 1], clock);
    assert pages[..n + 1][..n] == pages[..n];
    UpsertsKeepProjects(t, c, pages[..n], clock);
    ErrorOfPage(t, UpsertPages(t, c, pages[..n], clock).tables, c, pages[n], clock(n));
  }

  // A run that fails before its prune has upserted the pages before the first that cannot be synced,
  // and says what is wrong with it: no row is gone and every row of no such page is unchanged.
  lemma {:induction false} FailedSyncDeletesNothing(t: Tables, c: Content, pages: seq<Page>, clock: nat -> Time)
      returns (n: nat)
    requires Valid(t) && UpsertPages(t, c, pages, clock).error.Some?
    ensures n < |pages| && !Syncable(t, c, pages[n]) && forall p <- pages[..n] :: Syncable(t, c, p)
    ensures IsErrorOf(t, c, pages[n], UpsertPages(t, c, pages, clock).error.value)
    ensures Upserted(t, UpsertPages(t, c, pages, clock).tables, c, pages[..n])
  {
    hide Upserted, UpsertPages, Valid, Syncable, IsErrorOf;
    n := CleanPrefix(t, c, pages, clock);
    UpsertsAre(t, c, pages[..n], clock);
    SyncsIff(t, c, pages[..n], clock);
    SyncsIff(t, c, pages[..n + 1], clock);
    ErrorOfLast(t, c, pages, clock, n);
    assert pages[..n + 1] == pages[..n] + [pages[n]];
  }
}
