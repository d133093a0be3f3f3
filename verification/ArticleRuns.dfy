/**
Runs of the site's store. Handlers of different requests and the docs sync interleave at the
granularity of store operations, so a publish is a save followed, some time later, by setting
the publish time.
*/
module ArticleRuns {
  import opened Text
  import opened Order
  import opened Slug
  import opened DocStore
  import opened Tags
  import opened Admin
  import Convergence
  import DocSync

  datatype Event =
    | Creates(formTitle: string, user: string, attempt: nat)
    | Saves(id: int, form: Form)
    | Publishes(id: int, at: Time)
    | Unpublishes(id: int)
    | Upserts(project: string, slug: string, title: string, bodyMD: string, bodyHTML: string)
    | Prunes(keep: set<string>)

  // The tables, and the articles that a publish has saved but not yet published
  datatype State = State(tables: Tables, saved: multiset<int>)

  function OrSame(t: Tables, t': Option<Tables>): Tables {
    if t'.Some? then t'.value else t
  }

  ghost function AfterInsert(t: Tables, site: Site, formTitle: string, user: string, attempt: nat, now: Time): Tables {
    var slug := SlugOf(site.lower, TrimSpace(formTitle));
    if slug == "" || attempt >= ATTEMPTS then t
    else OrSame(t, AfterCreate(t, Candidate(slug, attempt), TrimSpace(formTitle), user, now))
  }

  ghost function After(s: State, site: Site, e: Event, now: Time): State {
    var t := s.tables;
    match e
    case Creates(formTitle, user, attempt) => s.(tables := AfterInsert(t, site, formTitle, user, attempt, now))
    case Saves(id, form) =>
      var t' := SaveForm(t, site, id, form, now);
      if t' == None then s
      else State(t'.value, if form.action.Publish? then s.saved + multiset{id} else s.saved)
    case Publishes(id, at) =>
      if id !in s.saved then s
      else State(OrSame(t, AfterPublish(t, id, Some(at), now)), s.saved - multiset{id})
    case Unpublishes(id) => s.(tables := OrSame(t, AfterPublish(t, id, None, now)))
    case Upserts(project, slug, title, bodyMD, bodyHTML) =>
      s.(tables := OrSame(t, AfterUpsert(t, project, slug, title, bodyMD, bodyHTML, RENDER_VERSION, now)))
    case Prunes(keep) => s.(tables := AfterPrune(t, keep))
  }

  ghost function Run(s: State, site: Site, events: seq<(Event, Time)>): State {
    if events == [] then s
    else
      var last := events[|events| - 1];
      After(Run(s, site, events[..|events| - 1]), site, last.0, last.1)
  }

  // ---------- The invariant ----------

  // An article has no project and no version, and it is the latest.
  ghost predicate IsPlain(row: Row) {
    row.project == None && row.version == None && row.latest
  }

  // The stored HTML is the rendering of the stored markdown.
  ghost predicate IsRendered(site: Site, row: Row) {
    row.renderVersion == RENDER_VERSION && site.render(row.bodyMD) == Some(row.bodyHTML)
  }

  ghost predicate IsEmptyDraft(row: Row) {
    row.renderVersion == 0 && row.bodyMD == "" && row.bodyHTML == "" && row.publishedAt == None
  }

  ghost predicate IsGood(site: Site, row: Row) {
    row.kind == ArticleKind ==> IsPlain(row) && (IsEmptyDraft(row) || IsRendered(site, row))
  }

  ghost predicate RowsGood(site: Site, documents: map<int, Row>) {
    forall id <- documents :: IsGood(site, documents[id])
  }

  ghost predicate SavedRendered(site: Site, t: Tables, saved: multiset<int>) {
    forall id <- saved :: IsArticle(t, id) && IsRendered(site, t.documents[id])
  }

  ghost predicate CategoriesAreSlugs(categories: map<string, Category>) {
    forall c <- categories :: IsSlug(c)
  }

  ghost predicate Inv(site: Site, s: State) {
    && Valid(s.tables) && RowsGood(site, s.tables.documents)
    && SavedRendered(site, s.tables, s.saved) && CategoriesAreSlugs(s.tables.categories)
    && Convergence.PlainDocs(s.tables)
  }

  // Articles stay and keep their slugs.
  ghost predicate ArticlesStay(t: Tables, t': Tables) {
    forall id <- t.documents :: IsArticle(t, id) ==> IsArticle(t', id) && t'.documents[id].slug == t.documents[id].slug
  }

  // One more row, an empty draft
  lemma {:induction false} DraftKeeps(site: Site, t: Tables, t': Tables, saved: multiset<int>)
    requires Valid(t) && RowsGood(site, t.documents) && SavedRendered(site, t, saved) && Convergence.PlainDocs(t)
    requires var id := t.nextDocument;
      && id in t'.documents && t'.documents == t.documents[id := t'.documents[id]]
      && t'.documents[id].kind == ArticleKind && IsPlain(t'.documents[id]) && IsEmptyDraft(t'.documents[id])
    ensures RowsGood(site, t'.documents) && SavedRendered(site, t', saved) && ArticlesStay(t, t')
    ensures Convergence.PlainDocs(t')
  {
    hide IsRendered, KeysUnique, IsPlain, IsEmptyDraft;
    assert t.nextDocument !in t.documents;
  }

  lemma {:induction false} InsertKeeps(site: Site, s: State, formTitle: string, user: string, attempt: nat, now: Time)
    requires Inv(site, s)
    ensures var t' := AfterInsert(s.tables, site, formTitle, user, attempt, now);
      Inv(site, s.(tables := t')) && ArticlesStay(s.tables, t')
  {
    var slug, title := SlugOf(site.lower, TrimSpace(formTitle)), TrimSpace(formTitle);
    var t' := AfterInsert(s.tables, site, formTitle, user, attempt, now);
    hide SlugOf, TrimSpace, Candidate, RowsGood, SavedRendered, ArticlesStay, Valid, Convergence.PlainDocs;
    CreateKeepsValid(s.tables, Candidate(slug, attempt), title, user, now);
    if t' == s.tables {
      ArticlesStaySame(t');
    } else {
      DraftKeeps(site, s.tables, t', s.saved);
    }
  }

  lemma {:induction false} ArticlesStaySame(t: Tables)
    ensures ArticlesStay(t, t)
  {
  }

  // Rewriting one article with a rendering keeps every row good and every saved article rendered.
  lemma {:induction false} RewriteKeeps(site: Site, t: Tables, t': Tables, saved: multiset<int>, id: int)
    requires RowsGood(site, t.documents) && SavedRendered(site, t, saved) && IsArticle(t, id)
    requires id in t'.documents && t'.documents == t.documents[id := t'.documents[id]]
    requires var row, row' := t.documents[id], t'.documents[id];
      row'.kind == row.kind && row'.slug == row.slug && (IsPlain(row) ==> IsPlain(row')) && IsRendered(site, row')
    ensures RowsGood(site, t'.documents) && SavedRendered(site, t', saved) && ArticlesStay(t, t')
    ensures Convergence.PlainDocs(t) ==> Convergence.PlainDocs(t')
  {
    hide IsRendered, IsEmptyDraft;
  }

  lemma {:induction false} SaveKeeps(site: Site, s: State, id: int, form: Form, now: Time)
    requires Inv(site, s) && SaveForm(s.tables, site, id, form, now).Some?
    ensures var t' := SaveForm(s.tables, site, id, form, now).value;
      && Inv(site, State(t', s.saved)) && ArticlesStay(s.tables, t')
      && IsArticle(t', id) && IsRendered(site, t'.documents[id])
  {
    hide SaveForm, Valid, TagsOfField, IsSlug, TagsOf;
    SaveFormSaves(s.tables, site, id, form, now);
    TagsAreSlugs(site.lower, form.tags);
    var t', tags := SaveForm(s.tables, site, id, form, now).value, TagsOfField(site.lower, form.tags);
    RewriteKeeps(site, s.tables, t', s.saved, id);
    hide RowsGood, SavedRendered, ArticlesStay, Convergence.PlainDocs;
    forall c | c in t'.categories
      ensures IsSlug(c)
    {
      assert c in s.tables.categories.Keys || c in ToSet(tags);
    }
  }

  // Setting the publish time of an article that has been saved, or clearing any
  lemma {:induction false} PublishKeeps(site: Site, s: State, id: int, at: Option<Time>, now: Time)
    requires Inv(site, s) && AfterPublish(s.tables, id, at, now).Some?
    requires at == None || IsRendered(site, s.tables.documents[id])
    ensures var t' := AfterPublish(s.tables, id, at, now).value;
      Inv(site, s.(tables := t')) && ArticlesStay(s.tables, t')
  {
    PublishKeepsValid(s.tables, id, at, now);
    var t' := AfterPublish(s.tables, id, at, now).value;
    assert IsGood(site, s.tables.documents[id]);
    assert IsGood(site, t'.documents[id]);
  }

  lemma {:induction false} UpsertKeeps(site: Site, s: State, project: string, slug: string, title: string,
                                       bodyMD: string, bodyHTML: string, now: Time)
    requires Inv(site, s) && AfterUpsert(s.tables, project, slug, title, bodyMD, bodyHTML, RENDER_VERSION, now).Some?
    ensures var t' := AfterUpsert(s.tables, project, slug, title, bodyMD, bodyHTML, RENDER_VERSION, now).value;
      Inv(site, s.(tables := t')) && ArticlesStay(s.tables, t')
  {
    var t' := AfterUpsert(s.tables, project, slug, title, bodyMD, bodyHTML, RENDER_VERSION, now).value;
    UpsertKeepsValid(s.tables, project, slug, title, bodyMD, bodyHTML, RENDER_VERSION, now);
    UpsertWritesDoc(s.tables, project, slug, title, bodyMD, bodyHTML, now);
    hide AfterUpsert;
    SameArticlesKeep(site, s.tables, t', s.saved);
  }

  ghost predicate SameArticles(t: Tables, t': Tables) {
    && (forall id :: IsArticle(t, id) <==> IsArticle(t', id))
    && (forall id :: IsArticle(t, id) ==> t'.documents[id] == t.documents[id])
  }

  lemma {:induction false} UpsertWritesDoc(t: Tables, project: string, slug: string, title: string,
                                           bodyMD: string, bodyHTML: string, now: Time)
    requires Valid(t) && AfterUpsert(t, project, slug, title, bodyMD, bodyHTML, RENDER_VERSION, now).Some?
    ensures var t' := AfterUpsert(t, project, slug, title, bodyMD, bodyHTML, RENDER_VERSION, now).value;
      && SameArticles(t, t') && (Convergence.PlainDocs(t) ==> Convergence.PlainDocs(t'))
      && t'.categories == t.categories
  {
    hide KeysUnique;
  }

  lemma {:induction false} SameArticlesKeep(site: Site, t: Tables, t': Tables, saved: multiset<int>)
    requires RowsGood(site, t.documents) && SavedRendered(site, t, saved) && SameArticles(t, t')
    ensures RowsGood(site, t'.documents) && SavedRendered(site, t', saved) && ArticlesStay(t, t')
  {
    hide IsRendered, IsPlain, IsEmptyDraft;
  }

  lemma {:induction false} PruneKeeps(site: Site, s: State, keep: set<string>)
    requires Inv(site, s)
    ensures var t' := AfterPrune(s.tables, keep);
      Inv(site, s.(tables := t')) && ArticlesStay(s.tables, t')
  {
    PruneKeepsValid(s.tables, keep);
  }

  // One event keeps the invariant, loses no article and changes no article's slug.
  ghost predicate Kept(site: Site, s: State, s': State) {
    Inv(site, s') && ArticlesStay(s.tables, s'.tables)
  }

  lemma {:induction false} SavesKept(site: Site, s: State, id: int, form: Form, now: Time)
    requires Inv(site, s)
    ensures Kept(site, s, After(s, site, Saves(id, form), now))
  {
    hide SaveForm;
    if SaveForm(s.tables, site, id, form, now).Some? {
      SaveKeeps(site, s, id, form, now);
    }
  }

  lemma {:induction false} PublishesKept(site: Site, s: State, id: int, at: Time, now: Time)
    requires Inv(site, s)
    ensures Kept(site, s, After(s, site, Publishes(id, at), now))
    ensures Kept(site, s, After(s, site, Unpublishes(id), now))
  {
    if id in s.saved && AfterPublish(s.tables, id, Some(at), now).Some? {
      PublishKeeps(site, s, id, Some(at), now);
    }
    if AfterPublish(s.tables, id, None, now).Some? {
      PublishKeeps(site, s, id, None, now);
    }
  }

  lemma {:induction false} UpsertsKept(site: Site, s: State, project: string, slug: string, title: string,
                                       bodyMD: string, bodyHTML: string, now: Time)
    requires Inv(site, s)
    ensures Kept(site, s, After(s, site, Upserts(project, slug, title, bodyMD, bodyHTML), now))
  {
    hide AfterUpsert;
    if AfterUpsert(s.tables, project, slug, title, bodyMD, bodyHTML, RENDER_VERSION, now).Some? {
      UpsertKeeps(site, s, project, slug, title, bodyMD, bodyHTML, now);
    }
  }

  lemma {:induction false} StepKeeps(site: Site, s: State, e: Event, now: Time)
    requires Inv(site, s)
    ensures Kept(site, s, After(s, site, e, now))
  {
    hide Inv, ArticlesStay, AfterInsert, AfterPrune, SaveForm, AfterUpsert, AfterPublish;
    match e
    case Creates(formTitle, user, attempt) => InsertKeeps(site, s, formTitle, user, attempt, now);
    case Saves(id, form) => SavesKept(site, s, id, form, now);
    case Publishes(id, at) => PublishesKept(site, s, id, at, now);
    case Unpublishes(id) => PublishesKept(site, s, id, 0, now);
    case Upserts(project, slug, title, bodyMD, bodyHTML) => UpsertsKept(site, s, project, slug, title, bodyMD, bodyHTML,
        now);
    case Prunes(keep) => PruneKeeps(site, s, keep);
  }

  // Every run keeps the invariant, loses no article and changes no article's slug.
  lemma {:induction false} RunKeeps(site: Site, s: State, events: seq<(Event, Time)>)
    requires Inv(site, s)
    ensures Inv(site, Run(s, site, events)) && ArticlesStay(s.tables, Run(s, site, events).tables)
    decreases |events|
  {
    if events != [] {
      var before, last := events[..|events| - 1], events[|events| - 1];
      RunKeeps(site, s, before);
      StepKeeps(site, Run(s, site, before), last.0, last.1);
    }
  }

  // ---------- What readers see ----------

  ghost function PublicIds(t: Tables, slug: string): set<int> {
    set id | id in t.documents && IsPublic(t.documents[id], slug)
  }

  ghost predicate SlugsUnique(t: Tables) {
    forall i, j :: IsArticle(t, i) && IsArticle(t, j) && t.documents[i].slug == t.documents[j].slug ==> i == j
  }

  // A slug finds the article with that slug when it has a publish time, and finds nothing else.
  ghost predicate FindsExactly(t: Tables, slug: string) {
    PublicIds(t, slug) == set id | id in t.documents && IsArticle(t, id) && t.documents[id].slug == slug &&
      t.documents[id].publishedAt.Some?
  }

  // After every run two articles never share a slug; a slug finds at most one article, exactly
  // the one with that slug and a publish time; and what it finds is the rendering of its markdown.
  lemma {:induction false} ReadersSeePublished(site: Site, s: State, events: seq<(Event, Time)>, slug: string)
    requires Inv(site, s)
    ensures var t := Run(s, site, events).tables;
      && SlugsUnique(t) && FindsExactly(t, slug) && |PublicIds(t, slug)| <= 1
      && forall id <- PublicIds(t, slug) :: IsRendered(site, t.documents[id])
  {
    RunKeeps(site, s, events);
    var t := Run(s, site, events).tables;
    AtMostOne(PublicIds(t, slug));
  }

  // After a press of Unpublish that succeeds, readers find nothing under the article's slug; after
  // one of Publish they find that article; after a save they find what they found before.
  lemma {:induction false} ButtonsPublish(site: Site, s: State, events: seq<(Event, Time)>, id: int, form: Form,
                                          now: Time)
    requires Inv(site, s) && AfterAction(Run(s, site, events).tables, site, id, form, now).Some?
    ensures var t := Run(s, site, events).tables;
      var t' := AfterAction(t, site, id, form, now).value;
      && IsArticle(t, id) && IsArticle(t', id) && t'.documents[id].slug == t.documents[id].slug
      && PublicIds(t', t.documents[id].slug) ==
           (match form.action
            case Publish => {id}
            case Unpublish => {}
            case _ => PublicIds(t, t.documents[id].slug))
  {
    RunKeeps(site, s, events);
    var u := Run(s, site, events);
    hide Run;
    ActionPublishes(u.tables, site, id, form, now);
    ActionKeeps(site, u, id, form, now);
    var t' := AfterAction(u.tables, site, id, form, now).value;
    hide AfterAction;
    PublicBySlug(site, u, id);
    PublicBySlug(site, u.(tables := t', saved := multiset{}), id);
  }

  // Under its slug an article is found exactly when it has a publish time, and alone.
  lemma {:induction false} PublicBySlug(site: Site, s: State, id: int)
    requires Inv(site, s) && IsArticle(s.tables, id)
    ensures var row := s.tables.documents[id];
      PublicIds(s.tables, row.slug) == if row.publishedAt.Some? then {id} else {}
  {
    var t, slug := s.tables, s.tables.documents[id].slug;
    assert IsGood(site, t.documents[id]);
    forall j | j in t.documents && IsPublic(t.documents[j], slug)
      ensures j == id
    {
      assert IsGood(site, t.documents[j]);
      assert t.documents[j].Key() == t.documents[id].Key();
    }
    assert forall j :: j in PublicIds(t, slug) <==> j == id && t.documents[id].publishedAt.Some?;
  }

  // A press of a button keeps the invariant and the article's slug.
  lemma {:induction false} ActionKeeps(site: Site, s: State, id: int, form: Form, now: Time)
    requires Inv(site, s) && AfterAction(s.tables, site, id, form, now).Some?
    ensures var t' := AfterAction(s.tables, site, id, form, now).value;
      Inv(site, State(t', multiset{})) && ArticlesStay(s.tables, t')
  {
    var s0 := s.(saved := multiset{});
    ActionIsRun(site, s0, id, form, now);
    NoneSaved(site, s);
    RunKeeps(site, s0, ActionEvents(site, id, form, now));
  }

  lemma {:induction false} NoneSaved(site: Site, s: State)
    requires Inv(site, s)
    ensures Inv(site, s.(saved := multiset{}))
  {
  }

  lemma {:induction false} AtMostOne(s: set<int>)
    requires forall i, j :: i in s && j in s ==> i == j
    ensures |s| <= 1
  {
    if i :| i in s {
      assert forall j :: j in s <==> j in {i};
      assert s == {i};
    } else {
      assert forall j :: j !in s;
      assert s == {};
    }
  }

  // After every run, opening an article and saving it with its tags field untouched keeps its tags.
  lemma {:induction false} EditorKeepsTags(site: Site, s: State, events: seq<(Event, Time)>, id: int,
                                           shown: seq<string>, form: Form, now: Time)
    requires Inv(site, s) && !IsAlnum(site.lower(' '))
    requires Distinct(shown) && ToSet(shown) == TagsOf(Run(s, site, events).tables, id)
    requires form.tags == TagsField(shown)
    ensures TagsOfField(site.lower, form.tags) == shown
    ensures var t := Run(s, site, events).tables;
      var saved := SaveForm(t, site, id, form, now);
      && (saved.Some? <==> IsArticle(t, id) && site.render(form.bodyMD).Some?)
      && (saved.Some? ==> forall other :: TagsOf(saved.value, other) == TagsOf(t, other))
  {
    RunKeeps(site, s, events);
    forall c | c in shown
      ensures IsSlug(c)
    {
      assert c in ToSet(shown);
    }
    TagsRoundTrip(site.lower, shown);
    hide Run, SaveForm, TagsOf, TagsOfField, TagsField;
    SaveFormSaves(Run(s, site, events).tables, site, id, form, now);
  }

  // A store without documents and categories satisfies the invariant.
  lemma {:induction false} EmptyStoreGood(site: Site, projects: map<string, int>)
    requires forall p, q :: p in projects && q in projects && projects[p] == projects[q] ==> p == q
    ensures Inv(site, Empty(projects))
  {
  }

  function Empty(projects: map<string, int>): State {
    State(Tables(projects, map[], 1, map[], 1, {}), multiset{})
  }

  // So in every run from an empty store, whatever a slug finds is one article's rendering.
  lemma {:induction false} RunsFromEmpty(site: Site, projects: map<string, int>, events: seq<(Event, Time)>,
                                         slug: string)
    requires forall p, q :: p in projects && q in projects && projects[p] == projects[q] ==> p == q
    ensures var s := Run(Empty(projects), site, events);
      && Inv(site, s) && SlugsUnique(s.tables) && FindsExactly(s.tables, slug) && |PublicIds(s.tables, slug)| <= 1
      && forall id <- PublicIds(s.tables, slug) :: IsRendered(site, s.tables.documents[id])
  {
    EmptyStoreGood(site, projects);
    RunKeeps(site, Empty(projects), events);
    ReadersSeePublished(site, Empty(projects), events, slug);
  }

  // ---------- Docs rows ----------

  // Every upsert of the run is of a page whose slug has no slash.
  predicate UpsertsSlashFree(events: seq<(Event, Time)>) {
    forall e <- events :: e.0.Upserts? ==> Convergence.SlashFree(e.0.slug)
  }

  lemma {:induction false} StepKeepsSlashFree(site: Site, s: State, e: Event, now: Time)
    requires Inv(site, s) && Convergence.SlashFreeDocs(s.tables)
    requires e.Upserts? ==> Convergence.SlashFree(e.slug)
    ensures Convergence.SlashFreeDocs(After(s, site, e, now).tables)
  {
    hide Inv, Convergence.SlashFree, SaveForm;
    if e.Saves? && SaveForm(s.tables, site, e.id, e.form, now).Some? {
      SaveKeepsDocs(site, s, e.id, e.form, now);
    }
  }

  lemma {:induction false} SaveKeepsDocs(site: Site, s: State, id: int, form: Form, now: Time)
    requires Inv(site, s) && SaveForm(s.tables, site, id, form, now).Some?
    ensures var t' := SaveForm(s.tables, site, id, form, now).value;
      forall k <- t'.documents :: t'.documents[k].kind == DocKind ==>
        k in s.tables.documents && t'.documents[k] == s.tables.documents[k]
  {
    hide SaveForm;
    SaveFormSaves(s.tables, site, id, form, now);
  }

  // When the syncs upsert pages with slash-free slugs only, the store never holds another docs slug.
  lemma {:induction false} RunKeepsSlashFree(site: Site, s: State, events: seq<(Event, Time)>)
    requires Inv(site, s) && Convergence.SlashFreeDocs(s.tables) && UpsertsSlashFree(events)
    ensures Convergence.SlashFreeDocs(Run(s, site, events).tables)
    decreases |events|
  {
    if events != [] {
      hide Inv, Convergence.SlashFreeDocs, After, Convergence.SlashFree;
      var before, last := events[..|events| - 1], events[|events| - 1];
      assert last in events;
      RunKeeps(site, s, before);
      RunKeepsSlashFree(site, s, before);
      StepKeepsSlashFree(site, Run(s, site, before), last.0, last.1);
    }
  }

  // The upserts of a docs sync are of the manifest's pages.
  lemma {:induction false} SyncUpserts(t: Tables, c: DocSync.Content, pages: seq<DocSync.Page>, clock: nat -> Time)
    requires Convergence.SlashFreeSlugs(pages)
    ensures UpsertsSlashFree(UpsertEvents(t, c, pages, clock))
    decreases |pages|
  {
    if pages != [] {
      hide Convergence.SlashFree, DocSync.Prepare, DocSync.UpsertPages;
      SyncUpserts(t, c, pages[..|pages| - 1], clock);
      assert pages[|pages| - 1] in pages;
    }
  }

  // ---------- The handlers and the sync are runs ----------

  lemma {:induction false} RunOne(s: State, site: Site, e: Event, now: Time)
    ensures Run(s, site, [(e, now)]) == After(s, site, e, now)
  {
    assert [(e, now)][..0] == [];
  }

  lemma {:induction false} RunSnoc(s: State, site: Site, events: seq<(Event, Time)>, e: Event, now: Time)
    ensures Run(s, site, events + [(e, now)]) == After(Run(s, site, events), site, e, now)
  {
    assert (events + [(e, now)])[..|events|] == events;
  }

  // The events of one press of a button
  function ActionEvents(site: Site, id: int, form: Form, now: Time): seq<(Event, Time)> {
    match form.action
    case Save => [(Saves(id, form), now)]
    case Publish => [(Saves(id, form), now), (Publishes(id, PublishTime(site, form.date, now)), now)]
    case Unpublish => [(Unpublishes(id), now)]
    case _ => []
  }

  // A press of a button that succeeds, undisturbed, is the run of its events; one that fails
  // changes nothing.
  lemma {:induction false} ActionIsRun(site: Site, s: State, id: int, form: Form, now: Time)
    ensures var after := AfterAction(s.tables, site, id, form, now);
      Run(s, site, if after.Some? then ActionEvents(site, id, form, now) else []) ==
        s.(tables := if after.Some? then after.value else s.tables)
  {
    hide SaveForm, AfterPublish, PublishTime;
    if AfterAction(s.tables, site, id, form, now).Some? {
      var at := PublishTime(site, form.date, now);
      match form.action
      case Save => RunOne(s, site, Saves(id, form), now);
      case Publish =>
        RunOne(s, site, Saves(id, form), now);
        RunSnoc(s, site, [(Saves(id, form), now)], Publishes(id, at), now);
        assert [(Saves(id, form), now)] + [(Publishes(id, at), now)] == ActionEvents(site, id, form, now);
        assert s.saved + multiset{id} - multiset{id} == s.saved;
      case Unpublish => RunOne(s, site, Unpublishes(id), now);
    }
  }

  // A creation in a run either changes nothing or creates a draft under one of the five slugs.
  lemma {:induction false} CreatesAreCandidates(site: Site, s: State, formTitle: string, user: string, attempt: nat,
                                                now: Time)
    ensures var slug, title := SlugOf(site.lower, TrimSpace(formTitle)), TrimSpace(formTitle);
      var s' := After(s, site, Creates(formTitle, user, attempt), now);
      s' == s || (slug != "" && s'.saved == s.saved && exists c ::
        && (c == slug || c == slug + "-2" || c == slug + "-3" || c == slug + "-4" || c == slug + "-5")
        && AfterCreate(s.tables, c, title, user, now) == Some(s'.tables))
  {
    var slug := SlugOf(site.lower, TrimSpace(formTitle));
    CandidatesAre(slug);
    hide Candidate, AfterCreate, SlugOf, TrimSpace;
    var c := Candidate(slug, if attempt < 5 then attempt else 0);
    assert c == slug || c == slug + "-2" || c == slug + "-3" || c == slug + "-4" || c == slug + "-5";
  }

  // The first n attempts at creating an article
  function Attempts(formTitle: string, user: string, now: Time, n: nat): (r: seq<(Event, Time)>)
    ensures |r| == n && forall k :: 0 <= k < n ==> r[k] == (Creates(formTitle, user, k), now)
  {
    seq(n, k requires 0 <= k < n => (Creates(formTitle, user, k), now))
  }

  lemma {:induction false} TakenAttempts(site: Site, s: State, formTitle: string, user: string, now: Time, n: nat)
    requires var slug := SlugOf(site.lower, TrimSpace(formTitle));
      slug == "" || forall j: nat :: j < n ==> IsTaken(s.tables, Candidate(slug, j))
    ensures Run(s, site, Attempts(formTitle, user, now, n)) == s
  {
    if n > 0 {
      TakenAttempts(site, s, formTitle, user, now, n - 1);
      assert Attempts(formTitle, user, now, n) == Attempts(formTitle, user, now, n - 1) +
        [(Creates(formTitle, user, n - 1), now)];
      RunSnoc(s, site, Attempts(formTitle, user, now, n - 1), Creates(formTitle, user, n - 1), now);
    }
  }

  // Creating an article, undisturbed, is the run of the attempts up to the first free slug; when
  // there is no slug, or none free in five attempts, the run changes nothing.
  lemma {:induction false} CreateIsRun(site: Site, s: State, formTitle: string, user: string, now: Time, k: nat)
    ensures var slug, title := SlugOf(site.lower, TrimSpace(formTitle)), TrimSpace(formTitle);
      && (slug != "" && k < ATTEMPTS && FirstFreeAttempt(s.tables, slug, k) ==>
            && AfterCreate(s.tables, Candidate(slug, k), title, user, now).Some?
            && Run(s, site, Attempts(formTitle, user, now, k + 1)) ==
               s.(tables := AfterCreate(s.tables, Candidate(slug, k), title, user, now).value))
      && (slug == "" || (forall j: nat :: j < ATTEMPTS ==> IsTaken(s.tables, Candidate(slug, j))) ==>
            Run(s, site, Attempts(formTitle, user, now, ATTEMPTS)) == s)
  {
    var slug := SlugOf(site.lower, TrimSpace(formTitle));
    hide Candidate, Run;
    if slug == "" || forall j: nat :: j < ATTEMPTS ==> IsTaken(s.tables, Candidate(slug, j)) {
      TakenAttempts(site, s, formTitle, user, now, ATTEMPTS);
    }
    if slug != "" && k < ATTEMPTS && FirstFreeAttempt(s.tables, slug, k) {
      TakenAttempts(site, s, formTitle, user, now, k);
      assert Attempts(formTitle, user, now, k + 1) == Attempts(formTitle, user, now, k) +
        [(Creates(formTitle, user, k), now)];
      RunSnoc(s, site, Attempts(formTitle, user, now, k), Creates(formTitle, user, k), now);
    }
  }

  // The upserts of a docs sync, up to the first page that cannot be read or rendered
  ghost function UpsertEvents(t: Tables, c: DocSync.Content, pages: seq<DocSync.Page>,
                              clock: nat -> Time): seq<(Event, Time)> {
    if pages == [] then []
    else
      var k := |pages| - 1;
      var before, page := UpsertEvents(t, c, pages[..k], clock), pages[k];
      if DocSync.UpsertPages(t, c, pages[..k], clock).error.Some? then before
      else match DocSync.Prepare(c, page)
        case NotReady(_) => before
        case Ready(body) =>
          before + [(Upserts(page.project, page.doc.slug, page.doc.title, body.md, body.html), clock(k))]
  }

  lemma {:induction false} UpsertIsEvent(site: Site, s: State, c: DocSync.Content, page: DocSync.Page, now: Time)
    ensures match DocSync.Prepare(c, page)
      case NotReady(_) => DocSync.UpsertPage(s.tables, c, page, now).tables == s.tables
      case Ready(body) =>
        After(s, site, Upserts(page.project, page.doc.slug, page.doc.title, body.md, body.html), now) ==
          s.(tables := DocSync.UpsertPage(s.tables, c, page, now).tables)
  {
    hide AfterUpsert, DocSync.Prepare;
  }

  lemma {:induction false} UpsertsAreRun(site: Site, s: State, c: DocSync.Content, pages: seq<DocSync.Page>,
                                         clock: nat -> Time)
    ensures Run(s, site, UpsertEvents(s.tables, c, pages, clock)) ==
      s.(tables := DocSync.UpsertPages(s.tables, c, pages, clock).tables)
    decreases |pages|
  {
    hide After, DocSync.UpsertPage, DocSync.Prepare;
    if pages != [] {
      var k := |pages| - 1;
      var before, events := DocSync.UpsertPages(s.tables, c, pages[..k], clock),
        UpsertEvents(s.tables, c, pages[..k], clock);
      UpsertsAreRun(site, s, c, pages[..k], clock);
      if before.error == None {
        UpsertIsEvent(site, s.(tables := before.tables), c, pages[k], clock(k));
        if DocSync.Prepare(c, pages[k]).Ready? {
          var body := DocSync.Prepare(c, pages[k]).body;
          RunSnoc(s, site, events, Upserts(pages[k].project, pages[k].doc.slug, pages[k].doc.title, body.md, body.html),
                  clock(k));
        }
      }
    }
  }

  // A null array prunes nothing.
  function PruneEvents(pages: seq<DocSync.Page>, nilIsNull: bool, now: Time): seq<(Event, Time)> {
    if DocSync.PruneRuns(pages, nilIsNull) then [(Prunes(DocSync.Entries(pages)), now)] else []
  }

  // A docs sync, undisturbed, is the run of its upserts and, when they all succeed, of its prune.
  lemma {:induction false} SyncIsRun(site: Site, s: State, c: DocSync.Content, pages: seq<DocSync.Page>,
                                     clock: nat -> Time, nilIsNull: bool, now: Time)
    ensures var upserted, events := DocSync.UpsertPages(s.tables, c, pages, clock),
      UpsertEvents(s.tables, c, pages, clock);
      && Run(s, site, events) == s.(tables := upserted.tables)
      && Run(s, site, events + PruneEvents(pages, nilIsNull, now)) ==
        s.(tables := DocSync.AfterSync(s.tables, c, pages, clock, nilIsNull))
  {
    hide AfterPrune, DocSync.UpsertPages, UpsertEvents;
    var events := UpsertEvents(s.tables, c, pages, clock);
    UpsertsAreRun(site, s, c, pages, clock);
    RunSnoc(s, site, events, Prunes(DocSync.Entries(pages)), now);
    assert events + [] == events;
  }
}
