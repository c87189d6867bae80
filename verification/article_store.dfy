/**
 * The articles file read by the web application: a JSON list of records, one
 * per article, identified by slug.
 */
module ArticleStore {
  import opened Wrappers

  /** One record of the articles file. Only the combined builder writes
      `placeholderText`; records from the standalone article builder lack it. */
  datatype Article = Article(
    slug: string,
    title: string,
    videoId: string,
    category: string,
    description: string,
    date: string,
    placeholderText: Option<string>)

  /** The records of the articles file; a file that does not exist reads as
      an empty list. */
  function AllArticles(file: Option<seq<Article>>): seq<Article> {
    match file
    case None => []
    case Some(articles) => articles
  }

  /** Position of the first record whose slug is `slug`. */
  function SlugIndex(articles: seq<Article>, slug: string): (r: Option<nat>)
    ensures r.Some? ==> r.value < |articles| && articles[r.value].slug == slug
    ensures r.Some? ==> forall j :: 0 <= j < r.value ==> articles[j].slug != slug
    ensures r.None? <==> forall j :: 0 <= j < |articles| ==> articles[j].slug != slug
  {
    if |articles| == 0 then None
    else if articles[0].slug == slug then Some(0)
    else
      match SlugIndex(articles[1..], slug)
      case None => None
      case Some(i) => Some(i + 1)
  }

  /** The slug of every record differs from the slug of every other record. */
  predicate UniqueSlugs(articles: seq<Article>) {
    forall i, j :: 0 <= i < j < |articles| ==> articles[i].slug != articles[j].slug
  }

  /** The article page lookup: the first record with slug `slug`, or none. */
  function ArticleBySlug(file: Option<seq<Article>>, slug: string): (r: Option<Article>)
    ensures r.None? <==> forall a :: a in AllArticles(file) ==> a.slug != slug
    ensures r.Some? ==> r.value.slug == slug
    ensures r.Some? ==> exists i :: 0 <= i < |AllArticles(file)| && AllArticles(file)[i] == r.value
                                    && forall j :: 0 <= j < i ==> AllArticles(file)[j].slug != slug
  {
    var articles := AllArticles(file);
    match SlugIndex(articles, slug)
    case None => None
    case Some(i) => Some(articles[i])
  }

  /** When slugs are unique, the lookup returns the one record carrying the slug. */
  lemma LookupFindsUniqueRecord(articles: seq<Article>, a: Article)
    requires UniqueSlugs(articles) && a in articles
    ensures ArticleBySlug(Some(articles), a.slug) == Some(a)
  {
    var k :| 0 <= k < |articles| && articles[k] == a;
    var i := SlugIndex(articles, a.slug).value;
    assert !(i < k) && !(k < i);
  }
}
