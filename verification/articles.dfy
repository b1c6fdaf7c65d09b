/**
 * lib/articles.ts: long-form articles under `content/articles/<locale>`, read with the same
 * file loop and header pattern (optional `\r`) as the file-system notes loader, but with
 * their own keys and validity check.
 */
module Articles {
  import opened Wrappers
  import opened Text
  import opened Frontmatter
  import opened ContentDirectory

  /**
   * An article. `tags`, `category` and `readingTime` are `None` when the header has no such
   * line; `readingTime` is what `parseInt` makes of its line, possibly `NaN`.
   */
  datatype Article = Article(
    slug: string,
    title: string,
    description: string,
    date: string,
    tags: Option<seq<string>>,
    category: Option<string>,
    locale: string,
    readingTime: Option<Number>)

  /** The keys the `forEach` over the header lines assigns. */
  const ArticleKeys: set<string> := {"title", "description", "date", "category", "tags", "readingTime"}

  /** The `Partial<Article>` completed from the header fields, kept when it passes the check. */
  function ArticleOf(slug: string, locale: string, fields: map<string, string>): Option<Article> {
    if Filled(fields, "title") && Filled(fields, "description") && Filled(fields, "date") then
      Some(Article(
        slug,
        fields["title"],
        fields["description"],
        fields["date"],
        if "tags" in fields then Some(ParseTags(fields["tags"])) else None,
        Get(fields, "category"),
        locale,
        if "readingTime" in fields then Some(ParseInt(fields["readingTime"])) else None))
    else None
  }

  function ArticleFormat(locale: string): Format<Article> {
    Format(CrLf, ArticleKeys, (slug, fields) => ArticleOf(slug, locale, fields))
  }

  /** `new Date(article.date).getTime()`, for a date-to-number mapping `dateKey`. */
  function ArticleDate(dateKey: string -> int): Article -> int {
    (a: Article) => dateKey(a.date)
  }

  /** getArticles' result for the content tree `tree`. */
  function ArticlesOf(tree: map<string, seq<Entry>>, locale: string, dateKey: string -> int): seq<Article> {
    Listing(DirOf(tree, locale), ArticleFormat(locale), ArticleDate(dateKey))
  }

  /**
   * An article is kept exactly when title, description and date are non-empty; category and
   * reading time are optional, and each is set exactly when its line was read.
   */
  lemma ArticleOfValidity(slug: string, locale: string, fields: map<string, string>)
    ensures ArticleOf(slug, locale, fields).Some? <==>
      Filled(fields, "title") && Filled(fields, "description") && Filled(fields, "date")
    ensures ArticleOf(slug, locale, fields).Some? ==>
      var a := ArticleOf(slug, locale, fields).value;
      && a.slug == slug && a.locale == locale
      && a.title != "" && a.description != "" && a.date != ""
      && (a.tags.Some? <==> "tags" in fields)
      && (a.tags.Some? ==> |a.tags.value| >= 1)
      && (a.category.Some? <==> "category" in fields)
      && (a.readingTime.Some? <==> "readingTime" in fields)
  {
  }

  /** The reading time of a kept article is `parseInt` of its line. */
  lemma ReadingTimeOf(slug: string, locale: string, fields: map<string, string>, v: string)
    requires Filled(fields, "title") && Filled(fields, "description") && Filled(fields, "date")
    ensures ArticleOf(slug, locale, fields["readingTime" := v]).Some?
    ensures ArticleOf(slug, locale, fields["readingTime" := v]).value.readingTime == Some(ParseInt(v))
  {
    var m := fields["readingTime" := v];
    assert Filled(m, "title") && Filled(m, "description") && Filled(m, "date");
  }

  /** `readingTime: 5` and `readingTime: 5 min` both give 5. */
  lemma ReadingTimeNumber(slug: string, locale: string, fields: map<string, string>, n: nat, unit: string)
    requires Filled(fields, "title") && Filled(fields, "description") && Filled(fields, "date")
    requires |unit| == 0 || IsSpace(unit[0])
    ensures ArticleOf(slug, locale, fields["readingTime" := Decimal(n) + unit]).value.readingTime == Some(Int(n))
  {
    if |unit| > 0 {
      assert !('0' <= unit[0] <= '9' || unit[0] == 'x' || unit[0] == 'X');
    }
    ParseWrittenInt(n, unit);
    ReadingTimeOf(slug, locale, fields, Decimal(n) + unit);
  }

  /** A reading time that starts with neither a sign, a space nor a digit gives `NaN`. */
  lemma ReadingTimeNaN(slug: string, locale: string, fields: map<string, string>, word: string)
    requires Filled(fields, "title") && Filled(fields, "description") && Filled(fields, "date")
    requires |word| > 0 && !IsSpace(word[0]) && word[0] != '-' && word[0] != '+' && !('0' <= word[0] <= '9')
    ensures ArticleOf(slug, locale, fields["readingTime" := word]).value.readingTime == Some(NaN)
  {
    NotANumber(word);
    ReadingTimeOf(slug, locale, fields, word);
  }

  /** Every article listed for `locale` passed the check and comes from a readable content file. */
  lemma ListedArticle(entries: seq<Entry>, locale: string, dateKey: string -> int, a: Article)
    requires a in Listing(Some(entries), ArticleFormat(locale), ArticleDate(dateKey))
    ensures a.locale == locale
    ensures a.title != "" && a.description != "" && a.date != ""
    ensures exists i | 0 <= i < |entries| ::
      && IsContentFile(entries[i].name)
      && entries[i].text.Some?
      && a.slug == IdOf(entries[i].name)
  {
    var f := ArticleFormat(locale);
    var rs := Scan(entries, f).0;
    if !Scan(entries, f).1 {
      ListingOrdered(entries, f, ArticleDate(dateKey));
      assert a in multiset(rs);
    }
    ScanMembers(entries, f, a);
    var i :| 0 <= i < |entries| && IsContentFile(entries[i].name) && entries[i].text.Some?
      && FromText(f, IdOf(entries[i].name), entries[i].text.value) == Some(a);
    var h := MatchHeader(entries[i].text.value, CrLf).value;
    ArticleOfValidity(IdOf(entries[i].name), locale, FieldsOf(Split(h, '\n'), ArticleKeys));
  }

  /** getArticles. */
  method GetArticles(tree: map<string, seq<Entry>>, locale: string, dateKey: string -> int) returns (articles: seq<Article>)
    ensures articles == ArticlesOf(tree, locale, dateKey)
    ensures forall a | a in articles :: a.locale == locale && a.title != "" && a.description != "" && a.date != ""
    ensures locale !in tree ==> articles == []
  {
    articles := ListDirectory(DirOf(tree, locale), ArticleFormat(locale), ArticleDate(dateKey));
    forall a | a in articles ensures a.locale == locale && a.title != "" && a.description != "" && a.date != "" {
      ListedArticle(tree[locale], locale, dateKey, a);
    }
  }

  /** getArticle. */
  method GetArticle(tree: map<string, seq<Entry>>, slug: string, locale: string) returns (article: Option<Article>)
    ensures article == Lookup(DirOf(tree, locale), slug, ArticleFormat(locale))
    ensures ReadFile(DirOf(tree, locale), slug + ".mdx").None? ==> article.None?
    ensures article.Some? ==>
      && article.value.slug == slug && article.value.locale == locale
      && article.value.title != "" && article.value.description != "" && article.value.date != ""
  {
    article := ReadRecord(DirOf(tree, locale), slug, ArticleFormat(locale));
    var t := ReadFile(DirOf(tree, locale), slug + ".mdx");
    if t.Some? && MatchHeader(t.value, CrLf).Some? {
      var h := MatchHeader(t.value, CrLf).value;
      ArticleOfValidity(slug, locale, FieldsOf(Split(h, '\n'), ArticleKeys));
    }
  }

  /**
   * An article listed from the file `slug + ".mdx"` of a complete listing is found again by
   * getArticle under the slug the listing gave it.
   */
  lemma ListedArticleFoundBySlug(tree: map<string, seq<Entry>>, locale: string, dateKey: string -> int, i: nat, a: Article)
    requires locale in tree && UniqueNames(tree[locale]) && i < |tree[locale]|
    requires tree[locale][i].text.Some?
    requires exists slug :: tree[locale][i].name == slug + ".mdx" && forall k: nat | k < |slug| :: !OccursAt(slug + ".mdx", ".mdx", k)
    requires FromText(ArticleFormat(locale), IdOf(tree[locale][i].name), tree[locale][i].text.value) == Some(a)
    requires !Scan(tree[locale], ArticleFormat(locale)).1
    ensures a in ArticlesOf(tree, locale, dateKey)
    ensures Lookup(DirOf(tree, locale), IdOf(tree[locale][i].name), ArticleFormat(locale)) == Some(a)
  {
    ListedRecordFound(tree[locale], ArticleFormat(locale), ArticleDate(dateKey), i, a);
  }

  // Writing an article, with either line end.

  /** `String(n)` for a reading time `parseInt` gave; `NaN` is written as `NaN`. */
  function ReadingTimeText(t: Number): string {
    match t
    case NaN => "NaN"
    case Int(v) => if v >= 0 then Decimal(v) else "-" + Decimal(-v)
  }

  /** A written reading time is one plain word that `parseInt` reads back as the same number. */
  lemma ReadingTimeTextReads(t: Number)
    ensures PlainValue(ReadingTimeText(t))
    ensures ParseInt(ReadingTimeText(t)) == t
  {
    match t
    case NaN =>
      NotANumber("NaN");
    case Int(v) =>
      if v >= 0 {
        DecimalPlain(v);
        ParseWrittenInt(v, "");
        assert Decimal(v) + "" == Decimal(v);
      } else {
        ParseWrittenNegative(-v);
      }
  }

  /** The digits of a number are a plain value. */
  lemma DecimalPlain(n: nat)
    ensures PlainValue(Decimal(n)) && PlainValue("-" + Decimal(n))
  {
    var w := Decimal(n);
    DecimalDigits(n);
    assert w[|w| - 1] == ("-" + w)[|w|];
    assert '\n' !in w;
  }

  /** `parseInt` reads a written negative number back. */
  lemma ParseWrittenNegative(m: nat)
    requires m > 0
    ensures PlainValue("-" + Decimal(m))
    ensures ParseInt("-" + Decimal(m)) == Int(-(m as int))
  {
    var w := "-" + Decimal(m);
    DecimalPlain(m);
    DecimalDigits(m);
    assert TrimStart(w) == w;
    assert w[1..] == Decimal(m);
    PrefixDiffers("0x", Decimal(m), 0);
    PrefixDiffers("0X", Decimal(m), 0);
    assert Decimal(m) + "" == Decimal(m);
    LeadingDigitsOf(Decimal(m), "", 10);
    DecimalValue(m);
  }

  /** An article the loader would keep and whose fields can be written on header lines. */
  predicate WritableArticle(a: Article) {
    && a.title != "" && a.description != "" && a.date != ""
    && PlainValue(a.title) && PlainValue(a.description) && PlainValue(a.date)
    && (a.tags.Some? ==> |a.tags.value| >= 1 && forall t | t in a.tags.value :: PlainTag(t))
    && (a.category.Some? ==> PlainValue(a.category.value))
  }

  /** The lines every kept article has. */
  function RequiredArticlePairs(a: Article): seq<(string, string)> {
    [("title", a.title), ("description", a.description), ("date", a.date)]
  }

  /** The written tag list, when the article has tags. */
  function TagsPair(a: Article): Option<string> {
    if a.tags.Some? then Some(WriteTags(a.tags.value)) else None
  }

  /** The written reading time, when the article has one. */
  function ReadingTimePair(a: Article): Option<string> {
    if a.readingTime.Some? then Some(ReadingTimeText(a.readingTime.value)) else None
  }

  /** The lines of the optional fields that are set. */
  function OptionalArticlePairs(a: Article): seq<(string, string)> {
    OptionalPair("tags", TagsPair(a)) + OptionalPair("category", a.category) + OptionalPair("readingTime", ReadingTimePair(a))
  }

  /** The header lines of an article file, one per set field. */
  function ArticlePairs(a: Article): seq<(string, string)> {
    RequiredArticlePairs(a) + OptionalArticlePairs(a)
  }

  /** The file of an article: its header with the line ends of `d`, then `body`. */
  function RenderArticle(a: Article, body: string, d: Dialect): string {
    if d == CrLf then WriteCrLfFile(ArticlePairs(a), body) else WriteFile(ArticlePairs(a), body)
  }

  lemma OptionalArticlePairsPlain(a: Article)
    requires WritableArticle(a)
    ensures PlainPairs(OptionalArticlePairs(a), ArticleKeys)
  {
    if a.tags.Some? {
      WrittenTagsPlain(a.tags.value);
    }
    if a.readingTime.Some? {
      ReadingTimeTextReads(a.readingTime.value);
    }
    OptionalPairPlain("tags", TagsPair(a), ArticleKeys);
    OptionalPairPlain("category", a.category, ArticleKeys);
    OptionalPairPlain("readingTime", ReadingTimePair(a), ArticleKeys);
    PlainPairsAppend(OptionalPair("tags", TagsPair(a)), OptionalPair("category", a.category), ArticleKeys);
    PlainPairsAppend(OptionalPair("tags", TagsPair(a)) + OptionalPair("category", a.category), OptionalPair("readingTime", ReadingTimePair(a)), ArticleKeys);
  }

  /** Every line of a writable article's header can be written and read back. */
  lemma ArticlePairsWritable(a: Article)
    requires WritableArticle(a)
    ensures forall p | p in ArticlePairs(a) :: WritablePair(p, ArticleKeys)
  {
    assert PlainPairs(RequiredArticlePairs(a), ArticleKeys);
    OptionalArticlePairsPlain(a);
    PlainPairsAppend(RequiredArticlePairs(a), OptionalArticlePairs(a), ArticleKeys);
    var ps := ArticlePairs(a);
    forall p | p in ps ensures WritablePair(p, ArticleKeys) {
      var i :| 0 <= i < |ps| && ps[i] == p;
    }
  }

  // What each key of a written article is stored as, one key at a time.

  /** The optional lines set none of the required keys. */
  lemma OptionalArticleKeys(a: Article)
    ensures forall p | p in OptionalArticlePairs(a) :: p.0 == "tags" || p.0 == "category" || p.0 == "readingTime"
  {
  }

  lemma StoredRequired(a: Article, k: string, v: string)
    requires (k, v) in RequiredArticlePairs(a) && PlainValue(v)
    ensures Get(Stored(ArticlePairs(a)), k) == Some(v)
  {
    OptionalArticleKeys(a);
    StoredGet(ArticlePairs(a), k, Some(v));
    PlainValueReads(v);
  }

  lemma StoredArticleTags(a: Article)
    requires a.tags.Some? ==> |a.tags.value| >= 1 && forall t | t in a.tags.value :: PlainTag(t)
    ensures Get(Stored(ArticlePairs(a)), "tags") == TagsPair(a)
    ensures a.tags.Some? ==> ParseTags(TagsPair(a).value) == a.tags.value
  {
    StoredGet(ArticlePairs(a), "tags", TagsPair(a));
    if a.tags.Some? {
      WrittenTagsPlain(a.tags.value);
      PlainValueReads(WriteTags(a.tags.value));
      ReadWrittenTags(a.tags.value);
    }
  }

  lemma StoredCategory(a: Article)
    requires a.category.Some? ==> PlainValue(a.category.value)
    ensures Get(Stored(ArticlePairs(a)), "category") == a.category
  {
    StoredGet(ArticlePairs(a), "category", a.category);
    if a.category.Some? {
      PlainValueReads(a.category.value);
    }
  }

  lemma StoredReadingTime(a: Article)
    ensures Get(Stored(ArticlePairs(a)), "readingTime") == ReadingTimePair(a)
    ensures a.readingTime.Some? ==> ParseInt(ReadingTimePair(a).value) == a.readingTime.value
  {
    StoredGet(ArticlePairs(a), "readingTime", ReadingTimePair(a));
    if a.readingTime.Some? {
      ReadingTimeTextReads(a.readingTime.value);
      PlainValueReads(ReadingTimeText(a.readingTime.value));
    }
  }

  /** The fields stored from a writable article's header complete the same article. */
  lemma ArticleOfStored(a: Article)
    requires WritableArticle(a)
    ensures ArticleOf(a.slug, a.locale, Stored(ArticlePairs(a))) == Some(a)
  {
    StoredRequired(a, "title", a.title);
    StoredRequired(a, "description", a.description);
    StoredRequired(a, "date", a.date);
    StoredArticleTags(a);
    StoredCategory(a);
    StoredReadingTime(a);
  }

  /**
   * An article written with either line end is read back as itself, and getArticle finds it
   * under its slug.
   */
  lemma WrittenArticleFoundBySlug(tree: map<string, seq<Entry>>, a: Article, body: string, d: Dialect)
    requires WritableArticle(a)
    requires ReadFile(DirOf(tree, a.locale), a.slug + ".mdx") == Some(RenderArticle(a, body, d))
    ensures FromText(ArticleFormat(a.locale), a.slug, RenderArticle(a, body, d)) == Some(a)
    ensures Lookup(DirOf(tree, a.locale), a.slug, ArticleFormat(a.locale)) == Some(a)
  {
    ArticlePairsWritable(a);
    if d == CrLf {
      ReadCrLfWrittenFile(ArticlePairs(a), body, ArticleKeys);
    } else {
      ReadWrittenFile(ArticlePairs(a), body, ArticleKeys, CrLf);
    }
    ArticleOfStored(a);
  }
}
