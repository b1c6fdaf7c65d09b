/**
 * app/api/search/route.ts: the articles of a locale whose title, description or some tag
 * contains the lower-cased query. The articles come from getArticles, which catches its own
 * errors, and nothing else in the filter can throw, so the handler's 500 branch is not
 * reachable in this model and every reply has status 200.
 */
module SearchRoute {
  import opened Wrappers
  import opened Text
  import opened ContentDirectory
  import opened Lists
  import opened Articles
  import opened NoteQueries
  import opened Params

  datatype SearchReply = SearchReply(status: nat, articles: seq<Article>)

  /** The filter callback; `article.tags?.some(...)` is `undefined`, so false, without tags. */
  function ArticleTest(lq: string, lower: char -> char): Article -> bool {
    (a: Article) =>
      || Contains(Lower(a.title, lower), lq)
      || Contains(Lower(a.description, lower), lq)
      || (a.tags.Some? && SomeTagContains(a.tags.value, lq, lower))
  }

  /** GET with the `q` and `locale` parameters. */
  function HandleGet(q: Option<string>, locale: Option<string>, tree: map<string, seq<Entry>>, dateKey: string -> int, lower: char -> char): SearchReply {
    if !Truthy(q) then SearchReply(200, [])
    else
      var articles := ArticlesOf(tree, OrDefault(locale, "zh"), dateKey);
      SearchReply(200, Filter(articles, ArticleTest(Lower(q.value, lower), lower)))
  }

  /** What the search promises: the lower-cased query in the title, the description or a tag. */
  predicate ArticleMatches(a: Article, lq: string, lower: char -> char) {
    || Contains(Lower(a.title, lower), lq)
    || Contains(Lower(a.description, lower), lq)
    || (a.tags.Some? && exists i | 0 <= i < |a.tags.value| :: Contains(Lower(a.tags.value[i], lower), lq))
  }

  /** A missing or empty query answers no articles, whatever the content tree holds. */
  lemma EmptyQueryReadsNothing(q: Option<string>, locale: Option<string>, tree: map<string, seq<Entry>>, other: map<string, seq<Entry>>, dateKey: string -> int, lower: char -> char)
    requires !Truthy(q)
    ensures HandleGet(q, locale, tree, dateKey, lower) == SearchReply(200, [])
    ensures HandleGet(q, locale, tree, dateKey, lower) == HandleGet(q, locale, other, dateKey, lower)
  {
  }

  /** An absent and an empty locale parameter both search the `'zh'` articles. */
  lemma DefaultLocale(q: Option<string>, tree: map<string, seq<Entry>>, dateKey: string -> int, lower: char -> char)
    ensures HandleGet(q, None, tree, dateKey, lower) == HandleGet(q, Some("zh"), tree, dateKey, lower)
    ensures HandleGet(q, Some(""), tree, dateKey, lower) == HandleGet(q, Some("zh"), tree, dateKey, lower)
  {
  }

  /**
   * A query keeps, in getArticles order, exactly the articles of the locale (`'zh'` by
   * default) that match it; an article without tags is judged on title and description.
   */
  lemma SearchFilters(q: string, locale: Option<string>, tree: map<string, seq<Entry>>, dateKey: string -> int, lower: char -> char)
    requires q != ""
    ensures var r := HandleGet(Some(q), locale, tree, dateKey, lower);
      var all := ArticlesOf(tree, OrDefault(locale, "zh"), dateKey);
      && r.status == 200
      && IsSubsequence(r.articles, all)
      && forall a :: a in r.articles <==> a in all && ArticleMatches(a, Lower(q, lower), lower)
  {
    var all := ArticlesOf(tree, OrDefault(locale, "zh"), dateKey);
    var lq := Lower(q, lower);
    FilterKeeps(all, ArticleTest(lq, lower));
    forall a: Article ensures ArticleTest(lq, lower)(a) <==> ArticleMatches(a, lq, lower) {
      if a.tags.Some? {
        SomeTagContainsMeans(a.tags.value, lq, lower);
      }
    }
  }
}
