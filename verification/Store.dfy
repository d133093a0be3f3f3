/**
The document store: its tables with their constraints (the migrations) and the SQL statements
that read and change them (internal/store/documents.go, internal/store/admin.go).
*/
module DocStore {
  import opened Text
  import opened Order

  // content.RenderVersion
  const RENDER_VERSION := 1

  type Time = int

  datatype Kind = ArticleKind | DocKind

  // The columns of documents_identity_key; a null equals a null.
  datatype Identity = Identity(kind: Kind, project: Option<int>, slug: string, version: Option<string>)

  datatype Row = Row(
    kind: Kind, project: Option<int>, slug: string, version: Option<string>,
    title: string, author: string, bodyMD: string, bodyHTML: string, renderVersion: int,
    latest: bool, publishedAt: Option<Time>, updatedAt: Time)
  {
    function Key(): Identity {
      Identity(kind, project, slug, version)
    }
  }

  datatype Category = Category(id: int, name: string)

  // Projects and categories are keyed by their unique slugs, documents by their primary key.
  datatype Tables = Tables(
    projects: map<string, int>,
    documents: map<int, Row>, nextDocument: int,
    categories: map<string, Category>, nextCategory: int,
    documentCategories: set<(int, int)>)

  ghost predicate KeysUnique(documents: map<int, Row>) {
    forall i, j :: i in documents && j in documents && documents[i].Key() == documents[j].Key() ==> i == j
  }

  ghost predicate IsCategoryId(categories: map<string, Category>, id: int) {
    exists c :: c in categories && categories[c].id == id
  }

  // The constraints of the schema
  ghost predicate Valid(t: Tables) {
    && KeysUnique(t.documents)
    && (forall id :: id in t.documents ==> id < t.nextDocument)
    && (forall p, q :: p in t.projects && q in t.projects && t.projects[p] == t.projects[q] ==> p == q)
    && (forall id :: id in t.documents && t.documents[id].project.Some? ==>
        t.documents[id].project.value in t.projects.Values)
    && (forall c :: c in t.categories ==> t.categories[c].id < t.nextCategory)
    && (forall c, d :: c in t.categories && d in t.categories && t.categories[c].id == t.categories[d].id ==> c == d)
    && (forall dc :: dc in t.documentCategories ==> dc.0 in t.documents)
    && (forall dc :: dc in t.documentCategories ==> IsCategoryId(t.categories, dc.1))
  }

  // The row an insert of this identity would conflict with
  ghost function RowWith(documents: map<int, Row>, key: Identity): (r: Option<int>)
    ensures r.Some? ==> r.value in documents && documents[r.value].Key() == key
    ensures r.None? ==> forall id :: id in documents ==> documents[id].Key() != key
  {
    if id :| id in documents && documents[id].Key() == key then Some(id) else None
  }

  // ---------- Docs ----------

  function DocKey(project: int, slug: string): Identity {
    Identity(DocKind, Some(project), slug, None)
  }

  // The row is inserted, or updated when there is one; None is an unknown project.
  ghost function AfterUpsert(t: Tables, project: string, slug: string, title: string, bodyMD: string, bodyHTML: string,
                           renderVersion: int, now: Time): Option<Tables>
  {
    if project !in t.projects then None
    else
      match RowWith(t.documents, DocKey(t.projects[project], slug))
      case Some(id) =>
        var row := t.documents[id].(title := title, bodyMD := bodyMD, bodyHTML := bodyHTML,
                                    renderVersion := renderVersion, updatedAt := now);
        Some(t.(documents := t.documents[id := row]))
      case None =>
        var row := Row(DocKind, Some(t.projects[project]), slug, None, title, "sync", bodyMD, bodyHTML, renderVersion,
                       true, Some(now), now);
        Some(t.(documents := t.documents[t.nextDocument := row], nextDocument := t.nextDocument + 1))
  }

  function KeepEntry(project: string, slug: string): string {
    project + "/" + slug
  }

  // A docs row joined with its project whose "project/doc" entry is not kept
  predicate IsPruned(projects: map<string, int>, row: Row, keep: set<string>) {
    && row.kind == DocKind && row.project.Some?
    && exists p <- projects :: projects[p] == row.project.value && KeepEntry(p, row.slug) !in keep
  }

  // Those rows are deleted, and with a document its category links.
  function AfterPrune(t: Tables, keep: set<string>): Tables {
    var documents := map id | id in t.documents && !IsPruned(t.projects, t.documents[id], keep) :: t.documents[id];
    t.(documents := documents, documentCategories := set dc | dc in t.documentCategories && dc.0 in documents)
  }

  // ---------- Articles ----------

  function ArticleKey(slug: string): Identity {
    Identity(ArticleKind, None, slug, None)
  }

  function Draft(slug: string, title: string, author: string, now: Time): Row {
    Row(ArticleKind, None, slug, None, title, author, "", "", 0, true, None, now)
  }

  // None is a violation of the identity constraint.
  ghost function AfterCreate(t: Tables, slug: string, title: string, author: string, now: Time): Option<Tables> {
    if RowWith(t.documents, ArticleKey(slug)).Some? then None
    else Some(t.(documents := t.documents[t.nextDocument := Draft(slug, title, author, now)],
                 nextDocument := t.nextDocument + 1))
  }

  predicate IsArticle(t: Tables, id: int) {
    id in t.documents && t.documents[id].kind == ArticleKind
  }

  // None is ErrNotFound.
  function AfterPublish(t: Tables, id: int, at: Option<Time>, now: Time): Option<Tables> {
    if !IsArticle(t, id) then None
    else Some(t.(documents := t.documents[id := t.documents[id].(publishedAt := at, updatedAt := now)]))
  }

  // The categories of one document, by slug
  ghost function TagsOf(t: Tables, id: int): set<string> {
    set c | c in t.categories && (id, t.categories[c].id) in t.documentCategories
  }

  function Dehyphenated(slug: string): string {
    seq(|slug|, i requires 0 <= i < |slug| => if slug[i] == '-' then ' ' else slug[i])
  }

  // One category, created when it is not there
  function WithCategory(t: Tables, slug: string): (r: Tables)
    ensures slug in r.categories
  {
    if slug in t.categories then t
    else t.(categories := t.categories[slug := Category(t.nextCategory, Dehyphenated(slug))],
            nextCategory := t.nextCategory + 1)
  }

  // One tag: upsert the category, then insert the join row; None violates the join table's key
  function AddTag(t: Tables, id: int, slug: string): Option<Tables> {
    var t' := WithCategory(t, slug);
    var link := (id, t'.categories[slug].id);
    if link in t'.documentCategories then None
    else Some(t'.(documentCategories := t'.documentCategories + {link}))
  }

  function AddTags(t: Tables, id: int, tags: seq<string>): Option<Tables> {
    if tags == [] then Some(t)
    else match AddTags(t, id, tags[..|tags| - 1])
      case None => None
      case Some(t') => AddTag(t', id, tags[|tags| - 1])
  }

  datatype SaveError = NotFound | UniqueViolation
  datatype Saved = SavedAs(tables: Tables) | NotSaved(error: SaveError)

  // The article with its fields replaced and no categories
  function Rewritten(t: Tables, id: int, title: string, author: string, bodyMD: string, bodyHTML: string,
                     renderVersion: int, now: Time): Tables
    requires id in t.documents
  {
    var row := t.documents[id].(title := title, author := author, bodyMD := bodyMD, bodyHTML := bodyHTML,
                                renderVersion := renderVersion, updatedAt := now);
    t.(documents := t.documents[id := row], documentCategories := set dc | dc in t.documentCategories && dc.0 != id)
  }

  // The transaction: the row, then its categories reset to the tags
  function AfterSave(t: Tables, id: int, title: string, author: string, bodyMD: string, bodyHTML: string,
                     renderVersion: int, tags: seq<string>, now: Time): Saved
  {
    if !IsArticle(t, id) then NotSaved(NotFound)
    else match AddTags(Rewritten(t, id, title, author, bodyMD, bodyHTML, renderVersion, now), id, tags)
      case None => NotSaved(UniqueViolation)
      case Some(t') => SavedAs(t')
  }

  // ---------- Categories ----------

  // t' differs from t in the categories of document id and in new categories at most.
  ghost predicate OnlyTagsOf(t: Tables, t': Tables, id: int) {
    && t'.projects == t.projects && t'.documents == t.documents && t'.nextDocument == t.nextDocument
    && (forall c :: c in t.categories ==> c in t'.categories && t'.categories[c] == t.categories[c])
    && (forall dc: (int, int) :: dc.0 != id ==> (dc in t'.documentCategories <==> dc in t.documentCategories))
  }

  lemma {:induction false} WithCategoryKeeps(t: Tables, slug: string, id: int)
    requires Valid(t)
    ensures Valid(WithCategory(t, slug)) && OnlyTagsOf(t, WithCategory(t, slug), id)
    ensures TagsOf(WithCategory(t, slug), id) == TagsOf(t, id)
    ensures WithCategory(t, slug).categories.Keys == t.categories.Keys + {slug}
  {
    NewCategoryUnused(t, slug);
    WithCategoryValid(t, slug);
    hide Valid, TagsOf, Dehyphenated, IsCategoryId;
    WithCategoryTags(t, slug, id);
  }

  lemma {:induction false} WithCategoryValid(t: Tables, slug: string)
    requires Valid(t)
    ensures Valid(WithCategory(t, slug))
  {
    NewCategoryUnused(t, slug);
  }

  lemma {:induction false} WithCategoryTags(t: Tables, slug: string, id: int)
    requires forall dc :: dc in t.documentCategories ==> dc.1 != t.nextCategory
    ensures TagsOf(WithCategory(t, slug), id) == TagsOf(t, id)
  {
  }

  // The id a new category would get is linked to nothing, and old links stay valid.
  lemma {:induction false} NewCategoryUnused(t: Tables, slug: string)
    requires Valid(t)
    ensures forall dc :: dc in t.documentCategories ==> dc.1 != t.nextCategory
    ensures forall dc :: dc in t.documentCategories ==> IsCategoryId(WithCategory(t, slug).categories, dc.1)
  {
    forall dc | dc in t.documentCategories
      ensures IsCategoryId(WithCategory(t, slug).categories, dc.1) && dc.1 != t.nextCategory
    {
      assert IsCategoryId(t.categories, dc.1);
      var c :| c in t.categories && t.categories[c].id == dc.1;
      assert WithCategory(t, slug).categories[c] == t.categories[c];
    }
  }

  lemma {:induction false} LinkTags(t: Tables, id: int, slug: string)
    requires forall c, d :: c in t.categories && d in t.categories && t.categories[c].id == t.categories[d].id ==>
      c == d
    requires slug in t.categories
    ensures var link := (id, t.categories[slug].id);
      var t' := t.(documentCategories := t.documentCategories + {link});
      (link in t.documentCategories <==> slug in TagsOf(t, id)) && TagsOf(t', id) == TagsOf(t, id) + {slug}
  {
  }

  lemma {:induction false} LinkKeeps(t: Tables, id: int, slug: string)
    requires Valid(t) && id in t.documents && slug in t.categories
    ensures var link := (id, t.categories[slug].id);
      var t' := t.(documentCategories := t.documentCategories + {link});
      && (link in t.documentCategories <==> slug in TagsOf(t, id))
      && Valid(t') && OnlyTagsOf(t, t', id)
      && TagsOf(t', id) == TagsOf(t, id) + {slug}
  {
    hide TagsOf, KeysUnique;
    LinkTags(t, id, slug);
  }

  lemma {:induction false} AddTagAdds(t: Tables, id: int, slug: string)
    requires Valid(t) && id in t.documents
    ensures AddTag(t, id, slug).Some? <==> slug !in TagsOf(t, id)
    ensures AddTag(t, id, slug).Some? ==>
      var t' := AddTag(t, id, slug).value;
      && Valid(t') && OnlyTagsOf(t, t', id)
      && TagsOf(t', id) == TagsOf(t, id) + {slug}
      && t'.categories.Keys == t.categories.Keys + {slug}
  {
    WithCategoryKeeps(t, slug, id);
    LinkKeeps(WithCategory(t, slug), id, slug);
  }

  ghost function ToSet(tags: seq<string>): set<string> {
    set s | s in tags
  }

  lemma {:induction false} NoTags(t: Tables, id: int)
    ensures OnlyTagsOf(t, t, id) && Distinct<string>([])
  {
  }

  lemma {:induction false} SameDocuments(t: Tables, u: Tables, id: int)
    requires OnlyTagsOf(t, u, id)
    ensures u.documents == t.documents
  {
  }

  lemma {:induction false} OnlyTagsTransitive(t: Tables, u: Tables, v: Tables, id: int)
    requires OnlyTagsOf(t, u, id) && OnlyTagsOf(u, v, id)
    ensures OnlyTagsOf(t, v, id)
  {
  }

  // Adding tags succeeds exactly when none repeats another or one already there; then the
  // document has those tags besides its own, and nothing else changes.
  lemma {:induction false} AddTagsAdds(t: Tables, id: int, tags: seq<string>)
    requires Valid(t) && id in t.documents
    ensures AddTags(t, id, tags).Some? <==> Distinct(tags) && ToSet(tags) !! TagsOf(t, id)
    ensures AddTags(t, id, tags).Some? ==>
      var t' := AddTags(t, id, tags).value;
      && Valid(t') && OnlyTagsOf(t, t', id)
      && TagsOf(t', id) == TagsOf(t, id) + ToSet(tags)
      && t'.categories.Keys == t.categories.Keys + ToSet(tags)
    decreases |tags|
  {
    hide Valid, AddTag, TagsOf, OnlyTagsOf, Distinct;
    if tags == [] {
      NoTags(t, id);
    } else {
      var before, last := tags[..|tags| - 1], tags[|tags| - 1];
      assert tags == before + [last];
      AddTagsAdds(t, id, before);
      assert ToSet(tags) == ToSet(before) + {last};
      DistinctSnoc(before, last);
      if AddTags(t, id, before).Some? {
        var u := AddTags(t, id, before).value;
        SameDocuments(t, u, id);
        AddTagAdds(u, id, last);
        if AddTag(u, id, last).Some? {
          OnlyTagsTransitive(t, u, AddTag(u, id, last).value, id);
        }
      }
    }
  }

  lemma {:induction false} RewrittenKeeps(t: Tables, id: int, title: string, author: string, bodyMD: string,
                                          bodyHTML: string, renderVersion: int, now: Time)
    requires Valid(t) && id in t.documents
    ensures var u := Rewritten(t, id, title, author, bodyMD, bodyHTML, renderVersion, now);
      Valid(u) && TagsOf(u, id) == {}
  {
  }

  // Saving an article succeeds exactly when it exists and no tag repeats. Its categories are
  // then the tags, and other rows, other documents' tags and existing categories are unchanged.
  lemma {:induction false} SaveResets(t: Tables, id: int, title: string, author: string, bodyMD: string,
                                      bodyHTML: string, renderVersion: int, tags: seq<string>, now: Time)
    requires Valid(t)
    ensures var r := AfterSave(t, id, title, author, bodyMD, bodyHTML, renderVersion, tags, now);
      && (r.SavedAs? <==> IsArticle(t, id) && Distinct(tags))
      && (r.SavedAs? ==>
            && Valid(r.tables)
            && TagsOf(r.tables, id) == ToSet(tags)
            && r.tables.categories.Keys == t.categories.Keys + ToSet(tags)
            && OnlyTagsOf(Rewritten(t, id, title, author, bodyMD, bodyHTML, renderVersion, now), r.tables, id)
            && forall other :: other != id ==> TagsOf(r.tables, other) == TagsOf(t, other))
  {
    if IsArticle(t, id) {
      var u := Rewritten(t, id, title, author, bodyMD, bodyHTML, renderVersion, now);
      RewrittenKeeps(t, id, title, author, bodyMD, bodyHTML, renderVersion, now);
      AddTagsAdds(u, id, tags);
      if Distinct(tags) {
        var t' := AddTags(u, id, tags).value;
        forall other | other != id
          ensures TagsOf(t', other) == TagsOf(t, other)
        {
          OthersTagsKept(t, u, t', id, other);
        }
      }
    }
  }

  lemma {:induction false} OthersTagsKept(t: Tables, u: Tables, t': Tables, id: int, other: int)
    requires Valid(t) && Valid(t') && OnlyTagsOf(u, t', id) && other != id
    requires u.categories == t.categories && forall dc: (int, int) :: dc.0 != id ==>
      (dc in u.documentCategories <==> dc in t.documentCategories)
    ensures TagsOf(t', other) == TagsOf(t, other)
  {
  }

  // ---------- Statements keep the constraints ----------

  lemma {:induction false} RowWithUnique(documents: map<int, Row>, id: int)
    requires KeysUnique(documents) && id in documents
    ensures RowWith(documents, documents[id].Key()) == Some(id)
  {
  }

  lemma {:induction false} UpsertKeepsValid(t: Tables, project: string, slug: string, title: string, bodyMD: string,
                                            bodyHTML: string,
                                          renderVersion: int, now: Time)
    requires Valid(t)
    ensures var r := AfterUpsert(t, project, slug, title, bodyMD, bodyHTML, renderVersion, now); r.Some? ==>
      Valid(r.value)
  {
  }

  lemma {:induction false} PruneKeepsValid(t: Tables, keep: set<string>)
    requires Valid(t)
    ensures Valid(AfterPrune(t, keep))
  {
  }

  // A prune leaves the remaining documents their categories.
  lemma {:induction false} PruneKeepsTags(t: Tables, keep: set<string>, id: int)
    requires id in AfterPrune(t, keep).documents
    ensures TagsOf(AfterPrune(t, keep), id) == TagsOf(t, id)
  {
  }

  ghost predicate IsSpaced(slug: string, name: string) {
    |name| == |slug| && forall i :: 0 <= i < |slug| ==> name[i] == if slug[i] == '-' then ' ' else slug[i]
  }

  // A new category is named by its slug with spaces for hyphens; an old one keeps its name.
  lemma {:induction false} TagNamesAre(t: Tables, id: int, tags: seq<string>, c: string)
    requires AddTags(t, id, tags).Some? && c in tags
    ensures var t' := AddTags(t, id, tags).value;
      && c in t'.categories
      && (c in t.categories ==> t'.categories[c] == t.categories[c])
      && (c !in t.categories ==> IsSpaced(c, t'.categories[c].name))
    decreases |tags|
  {
    var before, last := tags[..|tags| - 1], tags[|tags| - 1];
    assert tags == before + [last];
    CategoriesStay(t, id, before);
    if c in before {
      TagNamesAre(t, id, before, c);
    } else {
      OnlyTheirCategories(t, id, before, c);
    }
  }

  lemma {:induction false} CategoriesStay(t: Tables, id: int, tags: seq<string>)
    requires AddTags(t, id, tags).Some?
    ensures var t' := AddTags(t, id, tags).value;
      forall c <- t.categories :: c in t'.categories && t'.categories[c] == t.categories[c]
    decreases |tags|
  {
    if tags != [] {
      CategoriesStay(t, id, tags[..|tags| - 1]);
    }
  }

  lemma {:induction false} OnlyTheirCategories(t: Tables, id: int, tags: seq<string>, c: string)
    requires AddTags(t, id, tags).Some? && c !in tags
    ensures c in AddTags(t, id, tags).value.categories ==> c in t.categories
    decreases |tags|
  {
    if tags != [] {
      assert tags == tags[..|tags| - 1] + [tags[|tags| - 1]];
      OnlyTheirCategories(t, id, tags[..|tags| - 1], c);
    }
  }

  lemma {:induction false} CreateKeepsValid(t: Tables, slug: string, title: string, author: string, now: Time)
    requires Valid(t)
    ensures var r := AfterCreate(t, slug, title, author, now); r.Some? ==> Valid(r.value)
  {
  }

  // A new article is an empty, unpublished row with its slug, title and author.
  lemma {:induction false} CreateIs(t: Tables, slug: string, title: string, author: string, now: Time)
    ensures var draft := Draft(slug, title, author, now);
      && draft == Row(ArticleKind, None, slug, None, title, author, "", "", 0, true, None, now)
      && AfterCreate(t, slug, title, author, now) ==
           if exists other <- t.documents :: t.documents[other].Key() == Identity(ArticleKind, None, slug, None)
           then None
           else Some(t.(documents := t.documents[t.nextDocument := draft], nextDocument := t.nextDocument + 1))
  {
  }

  lemma {:induction false} PublishKeepsValid(t: Tables, id: int, at: Option<Time>, now: Time)
    requires Valid(t)
    ensures var r := AfterPublish(t, id, at, now); r.Some? ==> Valid(r.value)
  {
  }

  // ---------- The store ----------

  datatype Article = Article(row: Row, tags: seq<string>)

  // What readers get: also the names of the categories
  datatype PublicArticle = PublicArticle(article: Article, names: seq<string>)

  // The names of the categories with these slugs, one for each
  ghost predicate AreNames(t: Tables, tags: seq<string>, names: seq<string>) {
    |names| == |tags| && forall i :: 0 <= i < |tags| ==>
      tags[i] in t.categories && names[i] == t.categories[tags[i]].name
  }

  ghost predicate IsArticleRow(t: Tables, id: int, a: Article) {
    id in t.documents && a.row == t.documents[id] && Distinct(a.tags) && ToSet(a.tags) == TagsOf(t, id)
  }

  // The database's order of strings, which may hold different strings equal
  type Collation = le: (string, string) -> bool | IsOrder(le) witness (a, b) => true

  function NameOf(categories: map<string, Category>, slug: string): string {
    if slug in categories then categories[slug].name else ""
  }

  function ByName(categories: map<string, Category>, collate: Collation): (string, string) -> bool {
    (a, b) => collate(NameOf(categories, a), NameOf(categories, b))
  }

  lemma {:induction false} ByNameIsOrder(categories: map<string, Category>, collate: Collation)
    ensures IsOrder(ByName(categories, collate))
  {
    var byName := ByName(categories, collate);
    forall a, b, c | byName(a, b) && byName(b, c)
      ensures byName(a, c)
    {
      assert collate(NameOf(categories, a), NameOf(categories, b)) &&
        collate(NameOf(categories, b), NameOf(categories, c));
    }
    forall a, b
      ensures byName(a, b) || byName(b, a)
    {
      assert collate(NameOf(categories, a), NameOf(categories, b)) ||
        collate(NameOf(categories, b), NameOf(categories, a));
    }
  }

  lemma {:induction false} NamesSorted(t: Tables, tags: seq<string>, names: seq<string>, collate: Collation)
    requires AreNames(t, tags, names) && IsSorted(tags, ByName(t.categories, collate))
    ensures IsSorted(names, collate)
  {
    forall i, j | 0 <= i < j < |names|
      ensures collate(names[i], names[j])
    {
      assert ByName(t.categories, collate)(tags[i], tags[j]);
    }
  }

  // The article with the names of its categories, in the order of the names
  ghost predicate IsPublicArticle(t: Tables, id: int, a: PublicArticle, collate: Collation) {
    IsArticleRow(t, id, a.article) && AreNames(t, a.article.tags, a.names) && IsSorted(a.names, collate)
  }

  datatype Lookup<T> = Found(row: T) | NoRows | TooManyRows

  // One row is written. A row the page had gets the new content and keeps everything else; a new
  // one is published at once.
  ghost predicate WritesPage(before: map<int, Row>, after: map<int, Row>, id: int, project: int, slug: string,
                             title: string, bodyMD: string, bodyHTML: string, renderVersion: int, now: Time)
  {
    && id in after && after == before[id := after[id]]
    && var row := after[id];
    && row.kind == DocKind && row.project == Some(project) && row.slug == slug && row.version == None
    && row.title == title && row.bodyMD == bodyMD && row.bodyHTML == bodyHTML && row.renderVersion == renderVersion
    && row.updatedAt == now
    && if id in before then
         row.author == before[id].author && row.latest == before[id].latest && row.publishedAt == before[id].publishedAt
       else
         row.author == "sync" && row.latest && row.publishedAt == Some(now)
  }

  lemma {:induction false} UpsertWritesPage(t: Tables, project: string, slug: string, title: string, bodyMD: string,
                                            bodyHTML: string, renderVersion: int, now: Time) returns (id: int)
    requires Valid(t) && project in t.projects
    ensures var r := AfterUpsert(t, project, slug, title, bodyMD, bodyHTML, renderVersion, now);
      r.Some? && WritesPage(t.documents, r.value.documents, id, t.projects[project], slug, title, bodyMD, bodyHTML,
                            renderVersion, now)
  {
    var found := RowWith(t.documents, DocKey(t.projects[project], slug));
    id := if found.Some? then found.value else t.nextDocument;
  }

  class Store {
    var projects: map<string, int>
    var documents: map<int, Row>
    var nextDocument: int
    var categories: map<string, Category>
    var nextCategory: int
    var documentCategories: set<(int, int)>
    const collate: Collation

    ghost function Snapshot(): Tables
      reads this
    {
      Tables(projects, documents, nextDocument, categories, nextCategory, documentCategories)
    }

    constructor (projects: map<string, int>, collate: Collation)
      requires forall p, q :: p in projects && q in projects && projects[p] == projects[q] ==> p == q
      ensures Valid(Snapshot()) && Snapshot() == Tables(projects, map[], 1, map[], 1, {})
    {
      this.projects, this.collate := projects, collate;
      documents, nextDocument := map[], 1;
      categories, nextCategory := map[], 1;
      documentCategories := {};
    }

    method UpsertDoc(project: string, slug: string, title: string, bodyMD: string, bodyHTML: string, renderVersion: int,
                     now: Time)
      returns (ok: bool)
      requires Valid(Snapshot())
      modifies this
      ensures Valid(Snapshot())
      ensures var r := AfterUpsert(old(Snapshot()), project, slug, title, bodyMD, bodyHTML, renderVersion, now);
        ok == r.Some? && Snapshot() == if ok then r.value else old(Snapshot())
      ensures ok <==> project in old(projects)
      ensures ok ==> exists id ::
        WritesPage(old(documents), documents, id, old(projects)[project], slug, title, bodyMD, bodyHTML, renderVersion,
                   now)
      ensures ok ==> nextDocument == old(nextDocument) + if old(nextDocument) in documents then 1 else 0
    {
      UpsertKeepsValid(Snapshot(), project, slug, title, bodyMD, bodyHTML, renderVersion, now);
      if project !in projects {
        return false;
      }
      ghost var written := UpsertWritesPage(Snapshot(), project, slug, title, bodyMD, bodyHTML, renderVersion, now);
      hide WritesPage;
      var key := DocKey(projects[project], slug);
      if id :| id in documents && documents[id].Key() == key {
        RowWithUnique(documents, id);
        documents := documents[id := documents[id].(title := title, bodyMD := bodyMD, bodyHTML := bodyHTML,
                                                    renderVersion := renderVersion, updatedAt := now)];
      } else {
        documents := documents[nextDocument := Row(DocKind, Some(projects[project]), slug, None, title, "sync", bodyMD,
                                                   bodyHTML, renderVersion, true, Some(now), now)];
        nextDocument := nextDocument + 1;
      }
      return true;
    }

    // None is a null array: comparing with it is never true or false, so nothing is deleted.
    method PruneDocs(keepArray: Option<set<string>>) returns (deleted: nat)
      requires Valid(Snapshot())
      modifies this
      ensures Valid(Snapshot())
      ensures Snapshot() == if keepArray.Some? then AfterPrune(old(Snapshot()), keepArray.value) else old(Snapshot())
      ensures deleted == |old(documents)| - |documents|
    {
      if keepArray == None {
        return 0;
      }
      var keep := keepArray.value;
      PruneKeepsValid(Snapshot(), keep);
      var before := documents;
      documents := map id | id in documents && !IsPruned(projects, documents[id], keep) :: documents[id];
      documentCategories := set dc | dc in documentCategories && dc.0 in documents;
      CountKept(before, documents);
      deleted := |before| - |documents|;
    }

    // One published article by slug
    method GetArticle(slug: string) returns (r: Lookup<PublicArticle>)
      ensures var ids := set id | id in documents && documents[id].kind == ArticleKind && documents[id].latest &&
                           documents[id].publishedAt.Some? && documents[id].slug == slug;
        match r
        case Found(a) => exists id :: ids == {id} && IsPublicArticle(Snapshot(), id, a, collate)
        case NoRows => ids == {}
        case TooManyRows => |ids| > 1
    {
      var ids := set id | id in documents && IsPublic(documents[id], slug);
      assert ids == set id | id in documents && documents[id].kind == ArticleKind && documents[id].latest &&
                      documents[id].publishedAt.Some? && documents[id].slug == slug;
      if id :| id in ids {
        if ids == {id} {
          ByNameIsOrder(categories, collate);
          var tags := SortedTags(id, ByName(categories, collate));
          var names := TagNames(tags);
          NamesSorted(Snapshot(), tags, names, collate);
          assert IsPublicArticle(Snapshot(), id, PublicArticle(Article(documents[id], tags), names), collate);
          return Found(PublicArticle(Article(documents[id], tags), names));
        }
        TwoMembers(ids, id);
        return TooManyRows;
      }
      assert forall id :: id !in ids;
      assert ids == {};
      return NoRows;
    }

    // One docs page by project and slug, latest version
    method GetDoc(project: string, slug: string) returns (r: Lookup<Row>)
      ensures var ids := set id | id in documents && documents[id].kind == DocKind && documents[id].latest &&
                           project in projects && documents[id].project == Some(projects[project]) &&
                           documents[id].slug == slug;
        match r
        case Found(row) => exists id :: ids == {id} && row == documents[id]
        case NoRows => ids == {}
        case TooManyRows => |ids| > 1
    {
      var ids := set id | id in documents && IsDocPage(projects, documents[id], project, slug);
      assert ids == set id | id in documents && documents[id].kind == DocKind && documents[id].latest &&
                      project in projects && documents[id].project == Some(projects[project]) &&
                      documents[id].slug == slug;
      if id :| id in ids {
        if ids == {id} {
          return Found(documents[id]);
        }
        TwoMembers(ids, id);
        return TooManyRows;
      }
      assert forall id :: id !in ids;
      assert ids == {};
      return NoRows;
    }

    method CreateArticle(slug: string, title: string, author: string, now: Time) returns (id: Option<int>)
      requires Valid(Snapshot())
      modifies this
      ensures Valid(Snapshot())
      ensures var r := AfterCreate(old(Snapshot()), slug, title, author, now);
        (id.Some? <==> r.Some?) && Snapshot() == if r.Some? then r.value else old(Snapshot())
      ensures id.Some? ==> id.value == old(nextDocument) && nextDocument == id.value + 1
      ensures id.Some? ==> documents == old(documents)[id.value :=
        Row(ArticleKind, None, slug, None, title, author, "", "", 0, true, None, now)]
      ensures id.None? <==> exists other <- old(documents) ::
        old(documents)[other].Key() == Identity(ArticleKind, None, slug, None)
    {
      ghost var t := Snapshot();
      CreateKeepsValid(t, slug, title, author, now);
      CreateIs(t, slug, title, author, now);
      hide Valid, AfterCreate, Draft, RowWith;
      if other :| other in documents && documents[other].Key() == ArticleKey(slug) {
        return None;
      }
      id := Some(nextDocument);
      documents := documents[nextDocument := Draft(slug, title, author, now)];
      nextDocument := nextDocument + 1;
    }

    // One article for editing, with its categories in some order
    method SortedTags(id: int, le: (string, string) -> bool) returns (tags: seq<string>)
      requires IsOrder(le)
      ensures Distinct(tags) && ToSet(tags) == TagsOf(Snapshot(), id) && IsSorted(tags, le)
    {
      hide IsOrder, IsSorted, Distinct;
      var found := TagSlugs(id);
      tags := Sort(found, le);
      SortSorts(found, le);
      DistinctPermuted(found, tags);
      assert forall t :: t in tags <==> t in multiset(tags);
      assert forall t :: t in found <==> t in multiset(found);
    }

    method TagNames(tags: seq<string>) returns (names: seq<string>)
      requires forall t <- ToSet(tags) :: t in categories
      ensures AreNames(Snapshot(), tags, names)
    {
      names := [];
      for i := 0 to |tags|
        invariant AreNames(Snapshot(), tags[..i], names)
      {
        assert tags[i] in ToSet(tags);
        names := names + [categories[tags[i]].name];
      }
      assert tags[..|tags|] == tags;
    }

    method GetArticleByID(id: int) returns (r: Option<Article>)
      ensures r.Some? <==> IsArticle(Snapshot(), id)
      ensures r.Some? ==> IsArticleRow(Snapshot(), id, r.value) && IsSorted(r.value.tags, collate)
    {
      if id !in documents || documents[id].kind != ArticleKind {
        return None;
      }
      var tags := SortedTags(id, collate);
      return Some(Article(documents[id], tags));
    }

    // The slugs of a document's categories, in some order
    method TagSlugs(id: int) returns (tags: seq<string>)
      ensures Distinct(tags) && ToSet(tags) == TagsOf(Snapshot(), id)
    {
      var left := set c | c in categories && (id, categories[c].id) in documentCategories;
      tags := [];
      while left != {}
        invariant left !! ToSet(tags) && left + ToSet(tags) == TagsOf(Snapshot(), id)
        invariant Distinct(tags)
      {
        var c :| c in left;
        assert c !in ToSet(tags);
        assert ToSet(tags + [c]) == ToSet(tags) + {c};
        left, tags := left - {c}, tags + [c];
      }
    }

    // Upsert the category, then insert the join row unless its key is taken
    method InsertTag(id: int, slug: string) returns (ok: bool)
      modifies this
      ensures ok == AddTag(old(Snapshot()), id, slug).Some?
      ensures ok ==> Snapshot() == AddTag(old(Snapshot()), id, slug).value
      ensures projects == old(projects) && documents == old(documents) && nextDocument == old(nextDocument)
      ensures ok ==> slug in categories && nextCategory == old(nextCategory) + if slug in old(categories) then 0 else 1
    {
      if slug !in categories {
        categories := categories[slug := Category(nextCategory, Dehyphenated(slug))];
        nextCategory := nextCategory + 1;
      }
      var link := (id, categories[slug].id);
      if link in documentCategories {
        return false;
      }
      documentCategories := documentCategories + {link};
      return true;
    }

    method InsertTags(id: int, tags: seq<string>) returns (ok: bool)
      modifies this
      ensures ok == AddTags(old(Snapshot()), id, tags).Some?
      ensures ok ==> Snapshot() == AddTags(old(Snapshot()), id, tags).value
      ensures projects == old(projects) && documents == old(documents) && nextDocument == old(nextDocument)
    {
      for i := 0 to |tags|
        invariant AddTags(old(Snapshot()), id, tags[..i]) == Some(Snapshot())
        invariant projects == old(projects) && documents == old(documents) && nextDocument == old(nextDocument)
      {
        assert tags[..i + 1][..i] == tags[..i];
        ok := InsertTag(id, tags[i]);
        if !ok {
          AddTagsStops(old(Snapshot()), id, tags, i + 1);
          return false;
        }
      }
      assert tags[..|tags|] == tags;
      return true;
    }

    // The transaction rolls back on any error.
    method UpdateArticle(id: int, title: string, author: string, bodyMD: string, bodyHTML: string, renderVersion: int,
                         tags: seq<string>, now: Time)
      returns (r: Option<SaveError>)
      requires Valid(Snapshot())
      modifies this
      ensures Valid(Snapshot())
      ensures match AfterSave(old(Snapshot()), id, title, author, bodyMD, bodyHTML, renderVersion, tags, now)
        case SavedAs(t) => r == None && Snapshot() == t
        case NotSaved(error) => r == Some(error) && Snapshot() == old(Snapshot())
    {
      hide AddTags, Valid, TagsOf, ToSet, OnlyTagsOf, Distinct;
      SaveResets(Snapshot(), id, title, author, bodyMD, bodyHTML, renderVersion, tags, now);
      if id !in documents || documents[id].kind != ArticleKind {
        return Some(NotFound);
      }
      var documents0, categories0, next0, links0 := documents, categories, nextCategory, documentCategories;
      documents := documents[id := documents[id].(title := title, author := author, bodyMD := bodyMD,
                                                  bodyHTML := bodyHTML, renderVersion := renderVersion,
                                                    updatedAt := now)];
      documentCategories := set dc | dc in documentCategories && dc.0 != id;
      var ok := InsertTags(id, tags);
      if !ok {
        documents, categories, nextCategory, documentCategories := documents0, categories0, next0, links0;
        return Some(UniqueViolation);
      }
      return None;
    }

    method SetPublished(id: int, at: Option<Time>, now: Time) returns (ok: bool)
      requires Valid(Snapshot())
      modifies this
      ensures Valid(Snapshot())
      ensures var r := AfterPublish(old(Snapshot()), id, at, now);
        ok == r.Some? && Snapshot() == if ok then r.value else old(Snapshot())
      ensures ok <==> id in old(documents) && old(documents)[id].kind == ArticleKind
      ensures ok ==> documents == old(documents)[id := old(documents)[id].(publishedAt := at, updatedAt := now)]
    {
      PublishKeepsValid(Snapshot(), id, at, now);
      if id !in documents || documents[id].kind != ArticleKind {
        return false;
      }
      documents := documents[id := documents[id].(publishedAt := at, updatedAt := now)];
      return true;
    }
  }

  lemma {:induction false} AddTagsStops(t: Tables, id: int, tags: seq<string>, n: nat)
    requires n <= |tags| && AddTags(t, id, tags[..n]) == None
    ensures AddTags(t, id, tags) == None
    decreases |tags|
  {
    if n == |tags| {
      assert tags[..n] == tags;
    } else {
      assert tags[..|tags| - 1][..n] == tags[..n];
      AddTagsStops(t, id, tags[..|tags| - 1], n);
    }
  }

  // The row is the project's latest docs page with the slug.
  predicate IsDocPage(projects: map<string, int>, row: Row, project: string, slug: string) {
    row.kind == DocKind && row.latest && project in projects && row.project == Some(projects[project]) &&
      row.slug == slug
  }

  function DocIds(t: Tables, project: string, slug: string): set<int> {
    set id | id in t.documents && IsDocPage(t.projects, t.documents[id], project, slug)
  }

  // The row is a latest article with the slug and a publish time.
  predicate IsPublic(row: Row, slug: string) {
    row.kind == ArticleKind && row.latest && row.publishedAt.Some? && row.slug == slug
  }

  lemma {:induction false} CountKept(before: map<int, Row>, after: map<int, Row>)
    requires after.Keys <= before.Keys
    ensures |after| <= |before|
  {
    assert |before.Keys| == |after.Keys| + |before.Keys - after.Keys|;
  }

  lemma {:induction false} TwoMembers(s: set<int>, x: int)
    requires x in s && s != {x}
    ensures |s| > 1
  {
    assert s == (s - {x}) + {x};
    assert |s| == |s - {x}| + 1;
  }
}
