/**
 * The article half of the two desktop authoring tools: the combined builder
 * (`builder.py`, articles and quizzes) and the standalone article builder
 * (`article_builder.py`). Both publish a form into the articles file and a
 * Jinja template, load a published article back into the form, delete
 * articles, and pull a YouTube video id out of a pasted link. The two differ
 * only in the required fields, the placeholder field, and the editor text of
 * a cleared form.
 */
module ArticleEditor {
  import opened Wrappers
  import opened Strings
  import opened ArticleStore

  /** Which of the two tools runs the operation. */
  datatype Tool = CombinedBuilder | ArticleBuilder

  /** The article form. `description` and `editorText` are the contents of the
      two Text widgets, without the newline Tk always keeps at their end. */
  datatype ArticleForm = ArticleForm(
    title: string,
    slug: string,
    videoId: string,
    category: string,
    placeholder: string,
    youtubeLink: string,
    description: string,
    editorText: string)

  datatype PublishError = MissingRequiredFields

  /** What publishing writes: the new articles list and the template file. */
  datatype Published = Published(articles: seq<Article>, templateName: string, template: string)

  /** Tk's `Text.get("1.0", END)`: the contents followed by one newline. */
  function TextGet(t: string): string {
    t + "\n"
  }

  const DefaultCategory := "SALESFORCE"

  /** Editor contents of a cleared form. */
  function ClearedEditorText(tool: Tool): string {
    match tool
    case CombinedBuilder => "\n"
    case ArticleBuilder => "<!-- Content -->\n"
  }

  /** `clear_form` */
  function ClearedForm(tool: Tool): ArticleForm {
    ArticleForm("", "", "", DefaultCategory, "", "", "", ClearedEditorText(tool))
  }

  // ---------------------------------------------------------------------------
  // Publishing
  // ---------------------------------------------------------------------------

  /** The combined builder needs a title and a slug; the article builder also
      needs a video id. The check is on the raw, unstripped entries. */
  predicate RequiredFieldsPresent(tool: Tool, form: ArticleForm) {
    form.title != "" && form.slug != "" && (tool == ArticleBuilder ==> form.videoId != "")
  }

  /** The record written for a form. */
  function RecordOf(tool: Tool, form: ArticleForm, date: string): Article {
    Article(
      Strip(form.slug), form.title, form.videoId, form.category,
      Strip(TextGet(form.description)), date,
      if tool == CombinedBuilder then Some(Strip(form.placeholder)) else None)
  }

  /** Replaces the first record with the same slug, or puts the record first. */
  function Upsert(articles: seq<Article>, a: Article): (r: seq<Article>)
    ensures SlugIndex(articles, a.slug).None? ==> r == [a] + articles
    ensures SlugIndex(articles, a.slug).Some? ==>
      var i := SlugIndex(articles, a.slug).value;
      |r| == |articles| && r[i] == a && forall j :: 0 <= j < |r| && j != i ==> r[j] == articles[j]
  {
    match SlugIndex(articles, a.slug)
    case None => [a] + articles
    case Some(i) => articles[i := a]
  }

  /** An upsert keeps every record with another slug, and grows the list only
      when the slug is new. */
  lemma UpsertKeepsOthers(articles: seq<Article>, a: Article)
    ensures forall b :: b in articles && b.slug != a.slug ==> b in Upsert(articles, a)
    ensures |Upsert(articles, a)| == |articles| + (if SlugIndex(articles, a.slug).Some? then 0 else 1)
  {
    var r := Upsert(articles, a);
    forall b | b in articles && b.slug != a.slug
      ensures b in r
    {
      var j :| 0 <= j < |articles| && articles[j] == b;
      if SlugIndex(articles, a.slug).None? {
        assert r[j + 1] == b;
      } else {
        assert r[j] == b;
      }
    }
  }

  lemma UpsertKeepsSlugsUnique(articles: seq<Article>, a: Article)
    ensures UniqueSlugs(articles) ==> UniqueSlugs(Upsert(articles, a))
  {
  }

  /** After an upsert the lookup by the record's slug finds exactly the record. */
  lemma UpsertThenLookup(articles: seq<Article>, a: Article)
    ensures ArticleBySlug(Some(Upsert(articles, a)), a.slug) == Some(a)
  {
    var r := Upsert(articles, a);
    match SlugIndex(articles, a.slug)
    case None =>
      assert r[0] == a;
    case Some(i) =>
      assert r[i] == a;
      assert forall j :: 0 <= j < i ==> r[j] == articles[j];
  }

  /** The Jinja tag that opens block `name`. */
  function BlockTag(name: string): string {
    "{% block " + name + " %}"
  }

  const BlockEnd := "{% endblock %}"
  const BodyOpen := BlockTag("article_body")

  /** The fixed text around the title, description, title and video id. */
  const Head0 := Extends + BlockTag("title")

  /** `{% extends 'article_layout.html' %}` and its newline, kept in short
      pieces. */
  const Extends := "{" + "% extends " + "'article_layout.html'" + " %}\n"
  const Head1 := " - CodeWme" + BlockEnd + "\n" + BlockTag("meta_description")
  const Head2 := BlockEnd + "\n" + BlockTag("article_header")
  const Head3 := BlockEnd + "\n" + BlockTag("video_id")
  const Head4 := BlockEnd + "\n"

  function TemplateHead(title: string, description: string, videoId: string): string {
    Head0 + title + Head1 + description + Head2 + title + Head3 + videoId + Head4
  }

  /** The template written for a published article; the body block holds the
      editor contents as Tk returns them. */
  function Template(title: string, description: string, videoId: string, editorText: string): string {
    TemplateHead(title, description, videoId) + BodyOpen + TemplateBody(editorText) + BlockEnd
  }

  /** The body block's contents: the editor text as Tk returns it, on lines of its own. */
  function TemplateBody(editorText: string): string {
    "\n" + TextGet(editorText) + "\n"
  }

  /** `publish_article` */
  function PublishArticle(tool: Tool, file: Option<seq<Article>>, form: ArticleForm, date: string)
    : (r: Result<Published, PublishError>)
    ensures r.Failure? <==> !RequiredFieldsPresent(tool, form)
    ensures r.Success? ==> ArticleBySlug(Some(r.value.articles), Strip(form.slug)) == Some(RecordOf(tool, form, date))
    ensures r.Success? ==> forall a :: a in AllArticles(file) && a.slug != Strip(form.slug) ==> a in r.value.articles
    ensures r.Success? ==> |r.value.articles| == |AllArticles(file)| + (if SlugIndex(AllArticles(file), Strip(form.slug)).Some? then 0 else 1)
    ensures r.Success? && UniqueSlugs(AllArticles(file)) ==> UniqueSlugs(r.value.articles)
    ensures r.Success? ==> r.value.templateName == Strip(form.slug) + ".html"
  {
    if !RequiredFieldsPresent(tool, form) then Failure(MissingRequiredFields)
    else
      var a := RecordOf(tool, form, date);
      var articles := Upsert(AllArticles(file), a);
      UpsertThenLookup(AllArticles(file), a);
      UpsertKeepsOthers(AllArticles(file), a);
      UpsertKeepsSlugsUnique(AllArticles(file), a);
      Success(Published(articles, a.slug + ".html", Template(a.title, a.description, a.videoId, form.editorText)))
  }

  // ---------------------------------------------------------------------------
  // Loading an article back into the form
  // ---------------------------------------------------------------------------

  /** The first group of a DOTALL, non-greedy search for the body block: the
      text between the first body opening tag and the first end tag after it. */
  function ExtractBody(content: string): (r: Option<string>)
    ensures r.Some? ==> exists i: nat ::
      && StartsAt(content, BodyOpen, i)
      && (forall q: nat :: q < i ==> !StartsAt(content, BodyOpen, q))
      && i + |BodyOpen| + |r.value| <= |content|
      && content[i + |BodyOpen|..i + |BodyOpen| + |r.value|] == r.value
      && StartsAt(content, BlockEnd, i + |BodyOpen| + |r.value|)
    ensures r.Some? ==> !Contains(r.value, BlockEnd)
    ensures r.None? <==> forall i: nat, j: nat ::
      StartsAt(content, BodyOpen, i) && i + |BodyOpen| <= j ==> !StartsAt(content, BlockEnd, j)
  {
    match FindFrom(content, BodyOpen, 0)
    case None => None
    case Some(i) =>
      match FindFrom(content, BlockEnd, i + |BodyOpen|)
      case None =>
        NoLaterClose(content, i);
        None
      case Some(j) =>
        BodyFound(content, i, j);
        Some(content[i + |BodyOpen|..j])
  }

  /** The first opening tag at `i` and the first end tag after it at `j`
      enclose the body, which holds no end tag itself. */
  lemma BodyFound(content: string, i: nat, j: nat)
    requires FindFrom(content, BodyOpen, 0) == Some(i)
    requires FindFrom(content, BlockEnd, i + |BodyOpen|) == Some(j)
    ensures i + |BodyOpen| <= j <= |content|
    ensures StartsAt(content, BodyOpen, i) && forall q: nat :: q < i ==> !StartsAt(content, BodyOpen, q)
    ensures StartsAt(content, BlockEnd, j)
    ensures var b := content[i + |BodyOpen|..j];
      && i + |BodyOpen| + |b| == j
      && content[i + |BodyOpen|..i + |BodyOpen| + |b|] == b
      && !Contains(b, BlockEnd)
  {
    NoOccurrenceInSlice(content, BlockEnd, i + |BodyOpen|, j);
  }

  /** If no end tag follows the first opening tag, none follows any later one. */
  lemma NoLaterClose(content: string, i0: nat)
    requires FindFrom(content, BodyOpen, 0) == Some(i0)
    requires FindFrom(content, BlockEnd, i0 + |BodyOpen|).None?
    ensures forall i: nat, j: nat ::
      StartsAt(content, BodyOpen, i) && i + |BodyOpen| <= j ==> !StartsAt(content, BlockEnd, j)
  {
  }

  /** The form after `edit_selected` picked the record with slug `slug`, or none
      when no record has it; `template` is the template file, if it exists. */
  function EditArticle(tool: Tool, articles: seq<Article>, slug: string, template: Option<string>)
    : (r: Option<ArticleForm>)
    ensures r.None? <==> forall a :: a in articles ==> a.slug != slug
    ensures r.Some? ==> r.value.slug == slug && r.value.youtubeLink == ""
    ensures r.Some? && (template.None? || ExtractBody(template.value).None?) ==>
      r.value.editorText == ClearedEditorText(tool)
    ensures r.Some? && template.Some? && ExtractBody(template.value).Some? ==>
      r.value.editorText == Strip(ExtractBody(template.value).value)
    ensures r.Some? ==> var a := ArticleBySlug(Some(articles), slug).value;
      && r.value.title == a.title && r.value.videoId == a.videoId
      && r.value.category == a.category && r.value.description == a.description
      && r.value.placeholder == if tool == CombinedBuilder && a.placeholderText.Some? then a.placeholderText.value else ""
  {
    match ArticleBySlug(Some(articles), slug)
    case None => None
    case Some(a) =>
      var editor :=
        match template
        case None => ClearedEditorText(tool)
        case Some(content) =>
          match ExtractBody(content)
          case None => ClearedEditorText(tool)
          case Some(body) => Strip(body);
      var placeholder :=
        match (tool, a.placeholderText)
        case (CombinedBuilder, Some(p)) => p
        case _ => "";
      Some(ArticleForm(a.title, a.slug, a.videoId, a.category, placeholder, "", a.description, editor))
  }

  /** The form a published article loads back as: entries as published, the
      stripped slug, description, placeholder and editor text. */
  function Reloaded(tool: Tool, form: ArticleForm): ArticleForm {
    ArticleForm(
      form.title, Strip(form.slug), form.videoId, form.category,
      if tool == CombinedBuilder then Strip(form.placeholder) else "",
      "", Strip(form.description), Strip(form.editorText))
  }

  // Markers cannot start inside the fixed parts of the template

  lemma BodyOpenFacts()
    ensures BodyOpen == "{% block article_body %}"
    ensures '{' !in BodyOpen[1..] && '-' !in BodyOpen && '\n' !in BodyOpen
    ensures BodyOpen[|BodyOpen| - 1] == '}'
  {
    BodyOpenText();
    BlockTagChars("article_body");
  }

  lemma BodyOpenText()
    ensures BodyOpen == "{% block article_body %}"
  {
    assert "{% block " + "article_body" + " %}" == "{% block article_body %}";
  }

  /** A block tag whose name has no brace, dash or newline has none of them
      either, apart from its opening brace, and ends with a brace. */
  lemma BlockTagChars(name: string)
    requires '{' !in name && '-' !in name && '\n' !in name
    ensures '{' !in BlockTag(name)[1..] && '-' !in BlockTag(name) && '\n' !in BlockTag(name)
    ensures BlockTag(name)[|BlockTag(name)| - 1] == '}'
  {
    var t := BlockTag(name);
    assert t == "{" + ("% block " + name + " %}");
    assert t[1..] == "% block " + name + " %}";
  }

  lemma BodyOpenChars()
    ensures |BodyOpen| == 24 && BodyOpen[0] == '{' && BodyOpen[3] == 'b' && BodyOpen[9] == 'a'
  {
  }

  lemma BlockEndFacts()
    ensures '{' !in BlockEnd[1..] && '\n' !in BlockEnd && BlockEnd[0] == '{'
    ensures Blocked(BlockEnd, BodyOpen)
  {
    BlockedTag(BlockEnd, BodyOpen, 3);
  }

  lemma BlockTagBlocked(name: string, k: nat)
    requires '{' !in name && k < |name| && 9 + k < |BodyOpen| && name[k] != BodyOpen[9 + k]
    ensures Blocked(BlockTag(name), BodyOpen)
  {
    var t := BlockTag(name);
    assert t[1..] == "% block " + name + " %}";
    BlockedTag(t, BodyOpen, 9 + k);
  }

  lemma NewlineBlocked(pat: string)
    requires |pat| > 0 && pat[0] != '\n'
    ensures Blocked("\n", pat)
  {
    BlockedWithoutFirst("\n", pat);
  }

  /** Text that starts with `{` kills every prefix of the body opening tag. */
  lemma BraceKillsPrefixes(c: string)
    requires |c| > 0 && c[0] == '{'
    ensures KillsPrefixes(c, BodyOpen)
  {
    BodyOpenFacts();
    forall m | 1 <= m < |BodyOpen|
      ensures KillsPrefix(c, BodyOpen, m)
    {
      assert BodyOpen[m] == BodyOpen[1..][m - 1];
      assert c[0] != BodyOpen[m + 0];
    }
  }

  lemma Head0Blocked()
    ensures Blocked(Head0, BodyOpen)
  {
    ExtendsBlocked();
    TitleBlocked();
    BlockedAppend(Extends, BlockTag("title"), BodyOpen);
  }

  lemma ExtendsBlocked()
    ensures Blocked(Extends, BodyOpen)
  {
    BodyOpenChars();
    var a, b, c := "% extends ", "'article_layout.html'", " %}\n";
    assert '{' !in a && '{' !in b && '{' !in c;
    assert Extends == "{" + (a + b + c);
    assert Extends[1..] == a + b + c && Extends[3] == 'e';
    BlockedTag(Extends, BodyOpen, 3);
  }

  lemma TitleBlocked()
    ensures Blocked(BlockTag("title"), BodyOpen)
  {
    BodyOpenChars();
    BlockTagBlocked("title", 0);
  }

  lemma Head1Blocked()
    ensures Blocked(Head1, BodyOpen) && KillsPrefixes(Head1, BodyOpen)
  {
    BodyOpenFacts();
    BlockEndFacts();
    BlockedWithoutFirst(" - CodeWme", BodyOpen);
    NewlineBlocked(BodyOpen);
    BlockTagBlocked("meta_description", 0);
    BlockedAppend(" - CodeWme", BlockEnd, BodyOpen);
    BlockedAppend(" - CodeWme" + BlockEnd, "\n", BodyOpen);
    BlockedAppend(" - CodeWme" + BlockEnd + "\n", BlockTag("meta_description"), BodyOpen);
    assert Head1[0] == ' ' && Head1[1] == '-';
    forall m | 1 <= m < |BodyOpen|
      ensures KillsPrefix(Head1, BodyOpen, m)
    {
      if BodyOpen[m] == ' ' {
        assert m + 1 < |BodyOpen|;
        assert Head1[1] != BodyOpen[m + 1];
      } else {
        assert Head1[0] != BodyOpen[m + 0];
      }
    }
  }

  /** `{% endblock %}` and a newline, followed by the opening tag `tail`. */
  lemma EndThenTagBlocked(tail: string)
    requires Blocked(tail, BodyOpen)
    ensures Blocked(BlockEnd + "\n" + tail, BodyOpen) && KillsPrefixes(BlockEnd + "\n" + tail, BodyOpen)
  {
    BodyOpenFacts();
    BlockEndFacts();
    NewlineBlocked(BodyOpen);
    BlockedAppend(BlockEnd, "\n", BodyOpen);
    BlockedAppend(BlockEnd + "\n", tail, BodyOpen);
    BraceKillsPrefixes(BlockEnd + "\n" + tail);
  }

  lemma HeadsBlocked()
    ensures Blocked(Head0, BodyOpen)
    ensures Blocked(Head1, BodyOpen) && KillsPrefixes(Head1, BodyOpen)
    ensures Blocked(Head2, BodyOpen) && KillsPrefixes(Head2, BodyOpen)
    ensures Blocked(Head3, BodyOpen) && KillsPrefixes(Head3, BodyOpen)
    ensures Blocked(Head4, BodyOpen) && KillsPrefixes(Head4, BodyOpen)
  {
    Head0Blocked();
    Head1Blocked();
    BlockTagBlocked("article_header", 8);
    EndThenTagBlocked(BlockTag("article_header"));
    BlockTagBlocked("video_id", 0);
    EndThenTagBlocked(BlockTag("video_id"));
    EndThenTagBlocked("");
    assert BlockEnd + "\n" + "" == Head4;
  }

  /** With no body opening tag in the title, description or video id, none
      starts inside the template head. */
  lemma TemplateHeadBlocked(title: string, description: string, videoId: string)
    requires !Contains(title, BodyOpen) && !Contains(description, BodyOpen) && !Contains(videoId, BodyOpen)
    ensures Blocked(TemplateHead(title, description, videoId), BodyOpen)
  {
    HeadsBlocked();
    FieldBlocked(title, Head1, BodyOpen);
    FieldBlocked(description, Head2, BodyOpen);
    FieldBlocked(title, Head3, BodyOpen);
    FieldBlocked(videoId, Head4, BodyOpen);
    var h := TemplateHead(title, description, videoId);
    assert h == Head0 + (title + Head1) + (description + Head2) + (title + Head3) + (videoId + Head4);
    BlockedAppend(Head0, title + Head1, BodyOpen);
    BlockedAppend(Head0 + (title + Head1), description + Head2, BodyOpen);
    BlockedAppend(Head0 + (title + Head1) + (description + Head2), title + Head3, BodyOpen);
    BlockedAppend(Head0 + (title + Head1) + (description + Head2) + (title + Head3), videoId + Head4, BodyOpen);
  }

  /** With no end tag in the editor text, none starts inside the body. */
  lemma TemplateBodyBlocked(editorText: string)
    requires !Contains(editorText, BlockEnd)
    ensures Blocked(TemplateBody(editorText), BlockEnd)
  {
    BlockEndFacts();
    NewlineBlocked(BlockEnd);
    forall m | 1 <= m < |BlockEnd|
      ensures KillsPrefix("\n", BlockEnd, m)
    {
      assert "\n"[0] != BlockEnd[m + 0];
    }
    FieldBlocked(editorText, "\n", BlockEnd);
    BlockedAppend("\n", TextGet(editorText), BlockEnd);
    BlockedAppend("\n" + TextGet(editorText), "\n", BlockEnd);
  }

  /** The body block of a template is the editor text it was written with,
      wrapped in newlines, when no marker occurs in the fields or the text. */
  lemma TemplateBodyRoundTrip(title: string, description: string, videoId: string, editorText: string)
    requires !Contains(title, BodyOpen) && !Contains(description, BodyOpen) && !Contains(videoId, BodyOpen)
    requires !Contains(editorText, BlockEnd)
    ensures ExtractBody(Template(title, description, videoId, editorText)) == Some(TemplateBody(editorText))
  {
    TemplateHeadBlocked(title, description, videoId);
    TemplateBodyBlocked(editorText);
    ExtractBetween(TemplateHead(title, description, videoId), TemplateBody(editorText));
  }

  /** The body found between a head and an end tag that no marker can start in. */
  lemma ExtractBetween(h: string, m: string)
    requires Blocked(h, BodyOpen) && Blocked(m, BlockEnd)
    ensures ExtractBody(h + BodyOpen + m + BlockEnd) == Some(m)
  {
    var content := h + BodyOpen + m + BlockEnd;
    assert content == [] + h + BodyOpen + (m + BlockEnd);
    FindAfterBlocked([], h, BodyOpen, m + BlockEnd);
    assert content == (h + BodyOpen) + m + BlockEnd + [];
    FindAfterBlocked(h + BodyOpen, m, BlockEnd, []);
    assert content[|h| + |BodyOpen|..|h| + |BodyOpen| + |m|] == m;
  }

  lemma StripTextGet(t: string)
    ensures Strip(TextGet(t)) == Strip(t)
  {
    assert AllSpace("\n") by {
      assert "\n"[0] == '\n';
    }
    StripIgnoresTrailingSpace(t, "\n");
  }

  /** Loading a just-published article back gives the published entries, the
      stripped slug, description and placeholder, and the editor text without
      its surrounding whitespace. */
  lemma PublishThenEdit(tool: Tool, file: Option<seq<Article>>, form: ArticleForm, date: string)
    requires RequiredFieldsPresent(tool, form)
    requires !Contains(form.title, BodyOpen) && !Contains(Strip(form.description), BodyOpen)
    requires !Contains(form.videoId, BodyOpen) && !Contains(form.editorText, BlockEnd)
    ensures var p := PublishArticle(tool, file, form, date).value;
      EditArticle(tool, p.articles, Strip(form.slug), Some(p.template)) == Some(Reloaded(tool, form))
  {
    var p := PublishArticle(tool, file, form, date).value;
    var a := RecordOf(tool, form, date);
    PublishedParts(tool, file, form, date);
    StripTextGet(form.description);
    TemplateBodyRoundTrip(a.title, a.description, a.videoId, form.editorText);
    ReloadFromParts(tool, form, date, p.articles, p.template);
  }

  lemma EditFound(tool: Tool, articles: seq<Article>, slug: string, a: Article, content: string, body: string)
    requires ArticleBySlug(Some(articles), slug) == Some(a) && ExtractBody(content) == Some(body)
    ensures EditArticle(tool, articles, slug, Some(content)) ==
      Some(ArticleForm(a.title, a.slug, a.videoId, a.category,
                       if tool == CombinedBuilder && a.placeholderText.Some? then a.placeholderText.value else "",
                       "", a.description, Strip(body)))
  {
  }

  lemma PublishedParts(tool: Tool, file: Option<seq<Article>>, form: ArticleForm, date: string)
    requires RequiredFieldsPresent(tool, form)
    ensures var p := PublishArticle(tool, file, form, date).value;
      var a := RecordOf(tool, form, date);
      && p.articles == Upsert(AllArticles(file), a)
      && p.template == Template(a.title, a.description, a.videoId, form.editorText)
  {
  }

  lemma ReloadFromParts(tool: Tool, form: ArticleForm, date: string, articles: seq<Article>, template: string)
    requires ArticleBySlug(Some(articles), Strip(form.slug)) == Some(RecordOf(tool, form, date))
    requires ExtractBody(template) == Some(TemplateBody(form.editorText))
    ensures EditArticle(tool, articles, Strip(form.slug), Some(template)) == Some(Reloaded(tool, form))
  {
    var a := RecordOf(tool, form, date);
    EditFound(tool, articles, Strip(form.slug), a, template, TemplateBody(form.editorText));
    StripTextGet(form.description);
    StripTemplateBody(form.editorText);
  }

  lemma StripTemplateBody(editorText: string)
    ensures Strip(TemplateBody(editorText)) == Strip(editorText)
  {
    assert TemplateBody(editorText) == "\n" + editorText + "\n\n";
    StripIgnoresSurroundingSpace("\n", editorText, "\n\n");
  }

  /** Publishing the reloaded form writes the same record again: publish,
      edit and publish settle after one round. */
  lemma RepublishIsStable(tool: Tool, form: ArticleForm, date: string)
    ensures RecordOf(tool, Reloaded(tool, form), date) == RecordOf(tool, form, date)
  {
    var again := Reloaded(tool, form);
    assert Strip(again.slug) == Strip(form.slug) by {
      StripIdempotent(form.slug);
    }
    assert Strip(TextGet(again.description)) == Strip(TextGet(form.description)) by {
      StripIdempotent(form.description);
      StripTextGet(form.description);
      StripTextGet(Strip(form.description));
    }
    if tool == CombinedBuilder {
      assert Strip(again.placeholder) == Strip(form.placeholder) by {
        StripIdempotent(form.placeholder);
      }
    }
  }

  // ---------------------------------------------------------------------------
  // Deleting
  // ---------------------------------------------------------------------------

  /** `delete_selected`: every record with the slug goes, the rest stay in order. */
  function DeleteArticle(articles: seq<Article>, slug: string): (r: seq<Article>)
    ensures forall a :: a in r <==> a in articles && a.slug != slug
    ensures |r| <= |articles|
  {
    if |articles| == 0 then []
    else (if articles[0].slug == slug then [] else [articles[0]]) + DeleteArticle(articles[1..], slug)
  }

  /** Deleting distributes over concatenation, so relative order is kept. */
  lemma {:induction false} DeleteKeepsOrder(xs: seq<Article>, ys: seq<Article>, slug: string)
    ensures DeleteArticle(xs + ys, slug) == DeleteArticle(xs, slug) + DeleteArticle(ys, slug)
    decreases |xs|
  {
    if |xs| == 0 {
      assert xs + ys == ys;
    } else {
      assert (xs + ys)[1..] == xs[1..] + ys;
      DeleteKeepsOrder(xs[1..], ys, slug);
    }
  }

  /** Deleting a slug undoes publishing it: the other records come back as
      they were. */
  lemma DeleteUndoesUpsert(articles: seq<Article>, a: Article)
    ensures DeleteArticle(Upsert(articles, a), a.slug) == DeleteArticle(articles, a.slug)
  {
    match SlugIndex(articles, a.slug)
    case None =>
      assert ([a] + articles)[1..] == articles;
    case Some(i) =>
      var r := Upsert(articles, a);
      assert articles == articles[..i] + [articles[i]] + articles[i + 1..];
      assert r == articles[..i] + [a] + articles[i + 1..];
      DeleteKeepsOrder(articles[..i] + [articles[i]], articles[i + 1..], a.slug);
      DeleteKeepsOrder(articles[..i], [articles[i]], a.slug);
      DeleteKeepsOrder(articles[..i] + [a], articles[i + 1..], a.slug);
      DeleteKeepsOrder(articles[..i], [a], a.slug);
      assert DeleteArticle([articles[i]], a.slug) == [] == DeleteArticle([a], a.slug);
  }

  // ---------------------------------------------------------------------------
  // The selected row of the article list
  // ---------------------------------------------------------------------------

  /** A value of a row of the article list as `Treeview.item` hands it back.
      ttk passes every value through Python's `int`, so a value `int` accepts
      comes back as a number and any other value as its text. */
  datatype ListValue = TextValue(text: string) | IntValue(n: int)

  /** Digits in groups joined by single underscores, the part of an integer
      Python's `int` reads after the sign. */
  predicate DigitGroups(d: string) {
    && |d| > 0 && IsDigit(d[0]) && IsDigit(d[|d| - 1])
    && (forall i :: 0 <= i < |d| ==> IsDigit(d[i]) || d[i] == '_')
    && (forall i :: 0 <= i < |d| - 1 && d[i] == '_' ==> d[i + 1] != '_')
  }

  /** The text after an optional leading sign. */
  function Unsigned(t: string): string {
    if |t| > 0 && (t[0] == '+' || t[0] == '-') then t[1..] else t
  }

  /** Python's `int` accepts `s`: whitespace around an optional sign and
      digit groups. */
  predicate IsIntText(s: string) {
    DigitGroups(Unsigned(Strip(s)))
  }

  /** The digits of `d`, its underscores dropped. */
  function DropUnderscores(d: string): (r: string)
    requires forall i :: 0 <= i < |d| ==> IsDigit(d[i]) || d[i] == '_'
    ensures AllDigits(r) && |r| <= |d|
    ensures AllDigits(d) ==> r == d
  {
    if |d| == 0 then [] else (if d[0] == '_' then [] else [d[0]]) + DropUnderscores(d[1..])
  }

  /** `int(s)` for text `int` accepts. */
  function IntOf(s: string): int
    requires IsIntText(s)
  {
    var t := Strip(s);
    var v: int := DigitsValue(DropUnderscores(Unsigned(t)));
    if t[0] == '-' then -v else v
  }

  /** What the article list hands back for a stored slug: the number when
      Python's `int` reads the slug as one, the slug itself otherwise. */
  function ListValueOf(slug: string): (r: ListValue)
    ensures r.IntValue? <==> IsIntText(slug)
    ensures r.TextValue? ==> r.text == slug
    ensures |slug| > 0 && AllDigits(slug) ==> r == IntValue(DigitsValue(slug))
  {
    DigitsAreIntText(slug);
    if IsIntText(slug) then IntValue(IntOf(slug)) else TextValue(slug)
  }

  lemma DigitsAreIntText(slug: string)
    ensures |slug| > 0 && AllDigits(slug) ==> IsIntText(slug) && IntOf(slug) == DigitsValue(slug)
  {
    if |slug| > 0 && AllDigits(slug) {
      StripTrimmed(slug);
      assert Unsigned(slug) == slug;
    }
  }

  /** `edit_selected` as the tools write it: the record is looked up by the
      value the list hands back. A stored slug is text and never equals a
      number, so a slug read back as a number loads nothing. */
  function EditSelected(tool: Tool, articles: seq<Article>, value: ListValue, template: Option<string>)
    : (r: Option<ArticleForm>)
    ensures value.IntValue? ==> r.None?
    ensures r.None? <==> value.IntValue? || forall a :: a in articles ==> a.slug != value.text
    ensures r.Some? ==> r.value.slug == value.text
  {
    match value
    case IntValue(_) => None
    case TextValue(slug) => EditArticle(tool, articles, slug, template)
  }

  /** `delete_selected` as the tools write it: the records kept are those
      whose slug differs from the value the list hands back, which is every
      record when that value is a number. */
  function DeleteSelected(articles: seq<Article>, value: ListValue): (r: seq<Article>)
    ensures value.IntValue? ==> r == articles
    ensures value.TextValue? ==> forall a :: a in r <==> a in articles && a.slug != value.text
  {
    match value
    case IntValue(_) => articles
    case TextValue(slug) => DeleteArticle(articles, slug)
  }

  /** The selected row acts on its record exactly when its slug is not
      integer text; otherwise editing loads nothing and deleting keeps every
      record. */
  lemma SelectedRowAgrees(tool: Tool, articles: seq<Article>, slug: string, template: Option<string>)
    ensures !IsIntText(slug) ==>
      && EditSelected(tool, articles, ListValueOf(slug), template) == EditArticle(tool, articles, slug, template)
      && DeleteSelected(articles, ListValueOf(slug)) == DeleteArticle(articles, slug)
    ensures IsIntText(slug) ==>
      && EditSelected(tool, articles, ListValueOf(slug), template).None?
      && DeleteSelected(articles, ListValueOf(slug)) == articles
  {
  }

  /** An article with slug `2024`: the corrected operations find its record,
      but the list hands back the number 2024, so editing loads nothing and
      deleting removes nothing. */
  lemma NumberSlugIsLost(tool: Tool, template: Option<string>)
    ensures var a := Article("2024", "Year in review", "dQw4w9WgXcQ", "News", "", "2024-01-01", None);
      && ListValueOf("2024") == IntValue(2024)
      && EditArticle(tool, [a], "2024", template).Some?
      && EditSelected(tool, [a], ListValueOf("2024"), template).None?
      && DeleteArticle([a], "2024") == []
      && DeleteSelected([a], ListValueOf("2024")) == [a]
  {
    var a := Article("2024", "Year in review", "dQw4w9WgXcQ", "News", "", "2024-01-01", None);
    YearSlugIsNumber();
    SlugOfOne(tool, a, template);
  }

  /** One record, looked up and deleted by its own slug. */
  lemma SlugOfOne(tool: Tool, a: Article, template: Option<string>)
    ensures EditArticle(tool, [a], a.slug, template).Some?
    ensures DeleteArticle([a], a.slug) == []
  {
    assert a in [a];
  }

  lemma YearSlugIsNumber()
    ensures ListValueOf("2024") == IntValue(2024)
  {
    var t := "2024";
    assert AllDigits(t);
    assert DigitsValue(t[..3]) == 202 by {
      assert t[..3][..2] == "20" && "20"[..1] == "2" && "2"[..0] == "";
    }
  }

  // ---------------------------------------------------------------------------
  // The YouTube video id scanner
  // ---------------------------------------------------------------------------

  predicate IsIdChar(c: char) {
    ('0' <= c <= '9') || ('A' <= c <= 'Z') || ('a' <= c <= 'z') || c == '_' || c == '-'
  }

  const IdLength := 11

  /** The eleven id characters starting at `q`, if all of them are there. */
  function IdFrom(s: string, q: nat): Option<string> {
    if q + IdLength <= |s| && forall i :: q <= i < q + IdLength ==> IsIdChar(s[i]) then Some(s[q..q + IdLength])
    else None
  }

  /** The group of a match of `(?:v=|/|embed/)([0-9A-Za-z_-]{11})` that starts
      at `p`. The three alternatives begin with different characters, so at
      most one of them applies. */
  function IdAt(s: string, p: nat): Option<string> {
    if StartsAt(s, "v=", p) then IdFrom(s, p + 2)
    else if StartsAt(s, "/", p) then IdFrom(s, p + 1)
    else if StartsAt(s, "embed/", p) then IdFrom(s, p + 6)
    else None
  }

  /** `re.search`: the match that starts leftmost, from `from` on. */
  function FindVideoId(s: string, from: nat): (r: Option<string>)
    ensures r.Some? ==> exists p: nat :: from <= p && IdAt(s, p) == r && forall q: nat :: from <= q < p ==> IdAt(s, q).None?
    ensures r.None? <==> forall p: nat :: from <= p ==> IdAt(s, p).None?
    ensures r.Some? ==> |r.value| == IdLength && forall i :: 0 <= i < |r.value| ==> IsIdChar(r.value[i])
    decreases |s| - from
  {
    if from >= |s| then None
    else
      match IdAt(s, from)
      case Some(id) => Some(id)
      case None => FindVideoId(s, from + 1)
  }

  /** `parse_video_id`: the id field after scanning the pasted link, unchanged
      when nothing matches. */
  function ParseVideoId(link: string, current: string): (r: string)
    ensures FindVideoId(TextGet(link), 0).None? ==> r == current
    ensures FindVideoId(TextGet(link), 0).Some? ==>
      |r| == IdLength && forall i :: 0 <= i < |r| ==> IsIdChar(r[i])
    ensures FindVideoId(TextGet(link), 0).Some? ==>
      exists p: nat :: IdAt(TextGet(link), p) == Some(r) && forall q: nat :: q < p ==> IdAt(TextGet(link), q).None?
  {
    match FindVideoId(TextGet(link), 0)
    case None => current
    case Some(id) => id
  }

  /** No match can start on a character that begins none of the three prefixes. */
  lemma NoMatchOnOtherChars(s: string, p: nat)
    requires p < |s| && s[p] != 'v' && s[p] != '/' && s[p] != 'e'
    ensures IdAt(s, p).None?
  {
    assert !StartsAt(s, "v=", p) by { if p + 2 <= |s| { assert s[p..p + 2][0] == s[p]; } }
    assert !StartsAt(s, "/", p) by { if p + 1 <= |s| { assert s[p..p + 1][0] == s[p]; } }
    assert !StartsAt(s, "embed/", p) by { if p + 6 <= |s| { assert s[p..p + 6][0] == s[p]; } }
  }

  /** Skipping positions where no match starts does not change the search. */
  lemma {:induction false} SkipNoMatch(s: string, from: nat, to: nat)
    requires from <= to
    requires forall p: nat :: from <= p < to ==> IdAt(s, p).None?
    ensures FindVideoId(s, from) == FindVideoId(s, to)
    decreases (to as int) - (from as int)
  {
    if from < to {
      if from < |s| {
        assert IdAt(s, from).None?;
      }
      SkipNoMatch(s, from + 1, to);
    }
  }

  /** The id of a short link `https://youtu.be/<id>` is found whatever follows it. */
  lemma ShortLinkId(id: string, rest: string)
    requires |id| == IdLength && forall i :: 0 <= i < |id| ==> IsIdChar(id[i])
    ensures FindVideoId("https://youtu.be/" + id + rest, 0) == Some(id)
  {
    var s := "https://youtu.be/" + id + rest;
    assert s[..17] == "https://youtu.be/";
    forall p: nat | p < 16
      ensures IdAt(s, p).None?
    {
      ShortLinkHostMisses(s, p);
    }
    SkipNoMatch(s, 0, 16);
    assert s[17..17 + IdLength] == id;
    ShortLinkIdAt(s, id);
  }

  /** No match starts inside `https://youtu.be` itself. */
  lemma ShortLinkHostMisses(s: string, p: nat)
    requires |s| >= 17 && s[..17] == "https://youtu.be/" && p < 16
    ensures IdAt(s, p).None?
  {
    assert s[p] == "https://youtu.be/"[p];
    if p == 6 {
      assert s[7] == "https://youtu.be/"[7];
      assert !IsIdChar(s[7]);
    } else if p == 7 {
      assert s[13] == "https://youtu.be/"[13];
      assert !IsIdChar(s[13]);
    } else if p == 15 {
      assert s[16] == "https://youtu.be/"[16];
      assert !StartsAt(s, "v=", p) by { assert s[p..p + 2][0] == s[p]; }
      assert !StartsAt(s, "/", p) by { assert s[p..p + 1][0] == s[p]; }
      assert !StartsAt(s, "embed/", p) by { if p + 6 <= |s| { assert s[p..p + 6][1] == s[16]; } }
    } else {
      NoMatchOnOtherChars(s, p);
    }
  }

  /** The slash ending the host is followed by the eleven id characters. */
  lemma ShortLinkIdAt(s: string, id: string)
    requires |s| >= 17 + IdLength && s[..17] == "https://youtu.be/" && s[17..17 + IdLength] == id
    requires forall i :: 0 <= i < |id| ==> IsIdChar(id[i])
    ensures IdAt(s, 16) == Some(id)
  {
    assert s[16] == "https://youtu.be/"[16];
    assert s[16..17] == "/";
    forall i | 17 <= i < 17 + IdLength
      ensures IsIdChar(s[i])
    {
      assert s[i] == id[i - 17];
    }
  }
}
