/**
The article editor's handlers (internal/web/admin.go).
*/
module Admin {
  import opened Text
  import opened Order
  import opened Slug
  import opened DocStore
  import opened Tags

  const ATTEMPTS := 5

  // What the handlers take from elsewhere: the case table, the renderer, which may fail, noon of
  // a date that parses, and the date of a time.
  datatype Site = Site(lower: Lowering, render: string -> Option<string>, noonOf: string -> Option<Time>,
                       dateOf: Time -> string)

  // ---------- Creating ----------

  // The slug of one attempt: s, then s-2 up to s-5
  function Candidate(slug: string, attempt: nat): string {
    if attempt == 0 then slug else Suffixed(slug, attempt + 1)
  }

  ghost predicate IsTaken(t: Tables, slug: string) {
    RowWith(t.documents, ArticleKey(slug)).Some?
  }

  ghost predicate FirstFreeAttempt(t: Tables, slug: string, k: nat) {
    !IsTaken(t, Candidate(slug, k)) && forall j: nat :: j < k ==> IsTaken(t, Candidate(slug, j))
  }

  datatype Creation = NoTitle | Created(id: int) | SlugTaken

  method AdminCreate(st: Store, site: Site, formTitle: string, user: string, now: Time) returns (r: Creation)
    requires Valid(st.Snapshot())
    modifies st
    ensures Valid(st.Snapshot())
    ensures var t, slug := old(st.Snapshot()), SlugOf(site.lower, TrimSpace(formTitle));
      match r
      case NoTitle => slug == "" && st.Snapshot() == t
      case Created(id) => slug != "" && id == t.nextDocument &&
        exists k: nat :: k < ATTEMPTS && FirstFreeAttempt(t, slug, k) &&
          AfterCreate(t, Candidate(slug, k), TrimSpace(formTitle), user, now) == Some(st.Snapshot())
      case SlugTaken => slug != "" && st.Snapshot() == t && forall k: nat :: k < ATTEMPTS ==>
        IsTaken(t, Candidate(slug, k))
  {
    var title := TrimSpace(formTitle);
    var slug := Slugify(site.lower, title);
    if slug == "" {
      return NoTitle;
    }
    for attempt := 0 to ATTEMPTS
      invariant st.Snapshot() == old(st.Snapshot())
      invariant forall j: nat :: j < attempt ==> IsTaken(st.Snapshot(), Candidate(slug, j))
    {
      var candidate := slug;
      if attempt > 0 {
        candidate := slug + "-" + Decimal(attempt + 1);
      }
      assert candidate == Candidate(slug, attempt);
      var id := st.CreateArticle(candidate, title, user, now);
      if id.Some? {
        assert FirstFreeAttempt(old(st.Snapshot()), slug, attempt);
        return Created(id.value);
      }
    }
    return SlugTaken;
  }

  // The slugs tried are s, s-2, s-3, s-4 and s-5.
  lemma {:induction false} CandidatesAre(slug: string)
    ensures ATTEMPTS == 5 && Candidate(slug, 0) == slug
    ensures Candidate(slug, 1) == slug + "-2" && Candidate(slug, 2) == slug + "-3"
    ensures Candidate(slug, 3) == slug + "-4" && Candidate(slug, 4) == slug + "-5"
  {
    assert Decimal(2) == "2" && Decimal(3) == "3" && Decimal(4) == "4" && Decimal(5) == "5";
  }

  // A new article's slug is a slug.
  lemma {:induction false} CreatedSlugIsSlug(site: Site, formTitle: string, attempt: nat)
    requires SlugOf(site.lower, TrimSpace(formTitle)) != ""
    ensures IsSlug(Candidate(SlugOf(site.lower, TrimSpace(formTitle)), attempt))
  {
    var slug := SlugOf(site.lower, TrimSpace(formTitle));
    SlugShape(site.lower, TrimSpace(formTitle));
    SuffixedIsSlug(slug, attempt + 1);
  }

  // ---------- Editing ----------

  datatype Action = Preview | Save | Publish | Unpublish | Other(name: string)
  datatype Form = Form(title: string, author: string, bodyMD: string, tags: string, date: string, action: Action)

  datatype Editor = Editor(
    id: int, slug: string, title: string, author: string, tags: string, bodyMD: string, previewHTML: string,
    published: bool, date: string, unsaved: bool)

  function EditorModel(site: Site, id: int, a: Article): Editor {
    Editor(id, a.row.slug, a.row.title, a.row.author, TagsField(a.tags), a.row.bodyMD, a.row.bodyHTML,
           a.row.publishedAt.Some?, if a.row.publishedAt.Some? then site.dateOf(a.row.publishedAt.value) else "", false)
  }

  // Noon of the given date; an empty or malformed date means now.
  function PublishTime(site: Site, date: string, now: Time): Time {
    var noon := site.noonOf(date);
    if noon.Some? then noon.value else now
  }

  datatype Response = Redirect | EditorPage(editor: Editor) | NotFoundPage | ServerError | BadRequest

  // The store after a save of the form's fields; None when the article is not there or rendering fails
  ghost function SaveForm(t: Tables, site: Site, id: int, form: Form, now: Time): Option<Tables> {
    match site.render(form.bodyMD)
    case None => None
    case Some(html) =>
      match AfterSave(t, id, TrimSpace(form.title), TrimSpace(form.author), form.bodyMD, html, RENDER_VERSION,
                      TagsOfField(site.lower, form.tags), now)
      case NotSaved(_) => None
      case SavedAs(t') => Some(t')
  }

  // What one press of a button in the editor does to the store
  ghost function AfterAction(t: Tables, site: Site, id: int, form: Form, now: Time): Option<Tables> {
    if !IsArticle(t, id) then None
    else match form.action
      case Save => SaveForm(t, site, id, form, now)
      case Publish =>
        var saved := SaveForm(t, site, id, form, now);
        if saved == None then None else AfterPublish(saved.value, id, Some(PublishTime(site, form.date, now)), now)
      case Unpublish => AfterPublish(t, id, None, now)
      case _ => None
  }

  // Publishing sets noon of the form's date, or the time of the request when the date does not
  // parse; unpublishing clears the time; a save leaves it.
  function PublishedAfter(site: Site, form: Form, now: Time, before: Option<Time>): Option<Time> {
    match form.action
    case Publish => if site.noonOf(form.date).Some? then site.noonOf(form.date) else Some(now)
    case Unpublish => None
    case _ => before
  }

  lemma {:induction false} ActionPublishes(t: Tables, site: Site, id: int, form: Form, now: Time)
    requires Valid(t) && AfterAction(t, site, id, form, now).Some?
    ensures var t' := AfterAction(t, site, id, form, now).value;
      && IsArticle(t, id) && IsArticle(t', id)
      && t'.documents[id].publishedAt == PublishedAfter(site, form, now, t.documents[id].publishedAt)
  {
    hide SaveForm, Valid, TagsOf, TagsOfField;
    SaveFormSaves(t, site, id, form, now);
  }

  // The editor of an article, draft or published
  method AdminEditor(st: Store, site: Site, id: int) returns (r: Response)
    requires Valid(st.Snapshot())
    ensures r.NotFoundPage? <==> !IsArticle(st.Snapshot(), id)
    ensures !r.NotFoundPage? ==> r.EditorPage? && !r.editor.unsaved && r.editor.id == id
    ensures r.EditorPage? ==> exists tags ::
      && Distinct(tags) && ToSet(tags) == TagsOf(st.Snapshot(), id) && r.editor.tags == TagsField(tags)
      && ShowsRow(site, r.editor, st.documents[id])
  {
    var article := st.GetArticleByID(id);
    if article == None {
      return NotFoundPage;
    }
    assert Distinct(article.value.tags) && ToSet(article.value.tags) == TagsOf(st.Snapshot(), id);
    return EditorPage(EditorModel(site, id, article.value));
  }

  // The editor shows the row as it is stored.
  ghost predicate ShowsRow(site: Site, e: Editor, row: Row) {
    && e.slug == row.slug && e.title == row.title && e.author == row.author && e.bodyMD == row.bodyMD
    && e.previewHTML == row.bodyHTML && (e.published <==> row.publishedAt.Some?)
    && e.date == if row.publishedAt.Some? then site.dateOf(row.publishedAt.value) else ""
  }

  method AdminSave(st: Store, site: Site, id: int, form: Form, now: Time) returns (r: Response)
    requires Valid(st.Snapshot())
    modifies st
    ensures Valid(st.Snapshot())
    ensures var t := old(st.Snapshot());
      && (r.Redirect? <==> AfterAction(t, site, id, form, now).Some?)
      && (r.Redirect? ==> st.Snapshot() == AfterAction(t, site, id, form, now).value)
      && (!r.Redirect? ==> st.Snapshot() == t)
      && (r.NotFoundPage? <==> !IsArticle(t, id))
      && (r.BadRequest? <==> IsArticle(t, id) && form.action.Other?)
      && (r.EditorPage? <==> IsArticle(t, id) && form.action.Preview? && site.render(form.bodyMD).Some?)
      && (r.EditorPage? ==>
            && r.editor.slug == t.documents[id].slug && r.editor.unsaved
            && r.editor.title == TrimSpace(form.title) && r.editor.author == TrimSpace(form.author)
            && r.editor.bodyMD == form.bodyMD && r.editor.tags == form.tags && r.editor.date == form.date
            && Some(r.editor.previewHTML) == site.render(form.bodyMD)
            && r.editor.id == id && (r.editor.published <==> t.documents[id].publishedAt.Some?))
    ensures r.Redirect? ==> IsArticle(st.Snapshot(), id)
    ensures r.Redirect? ==>
      st.documents[id].publishedAt == PublishedAfter(site, form, now, old(st.documents)[id].publishedAt)
  {
    if AfterAction(st.Snapshot(), site, id, form, now).Some? {
      ActionPublishes(st.Snapshot(), site, id, form, now);
    }
    var article := st.GetArticleByID(id);
    if article == None {
      return NotFoundPage;
    }
    var title, author := TrimSpace(form.title), TrimSpace(form.author);
    var tags := ParseTags(site.lower, form.tags);
    match form.action {
      case Preview =>
        match site.render(form.bodyMD) {
          case None =>
            return ServerError;
          case Some(html) =>
            var m := EditorModel(site, id, article.value);
            return EditorPage(m.(title := title, author := author, date := form.date, tags := form.tags,
                                 bodyMD := form.bodyMD,
                                 previewHTML := html, unsaved := true));
        }
      case Unpublish =>
        var ok := st.SetPublished(id, None, now);
        return if ok then Redirect else NotFoundPage;
      case Other(_) =>
        return BadRequest;
      case _ =>
        r := SaveAndPublish(st, site, id, form, title, author, tags, now);
    }
  }

  // The save and publish actions
  method SaveAndPublish(st: Store, site: Site, id: int, form: Form, title: string, author: string, tags: seq<string>,
                        now: Time)
    returns (r: Response)
    requires Valid(st.Snapshot()) && IsArticle(st.Snapshot(), id)
    requires form.action.Save? || form.action.Publish?
    requires title == TrimSpace(form.title) && author == TrimSpace(form.author) &&
      tags == TagsOfField(site.lower, form.tags)
    modifies st
    ensures Valid(st.Snapshot())
    ensures var after := AfterAction(old(st.Snapshot()), site, id, form, now);
      if after.Some? then r == Redirect && st.Snapshot() == after.value
      else r == ServerError && st.Snapshot() == old(st.Snapshot())
  {
    SaveFormSaves(st.Snapshot(), site, id, form, now);
    var ok := SaveFields(st, site, id, form, title, author, tags, now, st.Snapshot());
    if !ok {
      return ServerError;
    }
    if form.action.Publish? {
      ok := st.SetPublished(id, Some(PublishTime(site, form.date, now)), now);
      return if ok then Redirect else NotFoundPage;
    }
    return Redirect;
  }

  // Render, then update the article
  method SaveFields(st: Store, site: Site, id: int, form: Form, title: string, author: string, tags: seq<string>,
                    now: Time, ghost t: Tables)
    returns (ok: bool)
    requires Valid(t) && st.Snapshot() == t
    requires title == TrimSpace(form.title) && author == TrimSpace(form.author) &&
      tags == TagsOfField(site.lower, form.tags)
    modifies st
    ensures Valid(st.Snapshot())
    ensures ok <==> SaveForm(t, site, id, form, now).Some?
    ensures st.Snapshot() == if ok then SaveForm(t, site, id, form, now).value else t
  {
    match site.render(form.bodyMD) {
      case None =>
        return false;
      case Some(html) =>
        var failed := st.UpdateArticle(id, title, author, form.bodyMD, html, RENDER_VERSION, tags, now);
        return failed == None;
    }
  }

  // The article with the form's fields
  function FormRow(row: Row, form: Form, html: string, now: Time): Row {
    row.(title := TrimSpace(form.title), author := TrimSpace(form.author), bodyMD := form.bodyMD, bodyHTML := html,
         renderVersion := RENDER_VERSION, updatedAt := now)
  }

  // A save succeeds exactly when the article is there and its text renders. It writes the form's
  // fields and that rendering into the one row, and makes the slugs named in the tags field the
  // article's categories; other articles' categories stay.
  lemma {:induction false} SaveFormSaves(t: Tables, site: Site, id: int, form: Form, now: Time)
    requires Valid(t)
    ensures var saved, html := SaveForm(t, site, id, form, now), site.render(form.bodyMD);
      && (saved.Some? <==> IsArticle(t, id) && html.Some?)
      && (saved.Some? ==>
            && Valid(saved.value) && saved.value.projects == t.projects && saved.value.nextDocument == t.nextDocument
            && saved.value.documents == t.documents[id := FormRow(t.documents[id], form, html.value, now)]
            && TagsOf(saved.value, id) == ToSet(TagsOfField(site.lower, form.tags))
            && saved.value.categories.Keys == t.categories.Keys + ToSet(TagsOfField(site.lower, form.tags))
            && forall other :: other != id ==> TagsOf(saved.value, other) == TagsOf(t, other))
  {
    if site.render(form.bodyMD).Some? {
      var title, author, html := TrimSpace(form.title), TrimSpace(form.author), site.render(form.bodyMD).value;
      TagsAreSlugs(site.lower, form.tags);
      SaveResets(t, id, title, author, form.bodyMD, html, RENDER_VERSION, TagsOfField(site.lower, form.tags), now);
    }
  }
}
