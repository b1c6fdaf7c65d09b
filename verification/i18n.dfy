/**
 * lib/i18n.ts: the two locales of the site, the default one, and the locale a pathname
 * names in its first segment.
 */
module I18n {
  import opened Text

  const Locales: seq<string> := ["zh", "en-US"]
  const DefaultLocale: string := "zh"

  /**
   * getLocaleFromPathname: the piece between the first and the second `/` when it is a known
   * locale, and the default locale otherwise (also when there is no such piece).
   */
  function LocaleFromPathname(pathname: string): (l: string)
    ensures l in Locales
  {
    var segments := Split(pathname, '/');
    if |segments| > 1 && segments[1] in Locales then segments[1] else DefaultLocale
  }

  /**
   * Only the first segment after the leading `/` decides, and appending more segments never
   * changes the result.
   */
  lemma LocaleOfFirstSegment(l: string, rest: string)
    requires '/' !in l
    ensures LocaleFromPathname("/" + l) == if l in Locales then l else DefaultLocale
    ensures LocaleFromPathname("/" + l + "/" + rest) == LocaleFromPathname("/" + l)
  {
    SplitNoSeparator(l, '/');
    assert "/" + l == "" + ['/'] + l;
    SplitAround("", '/', l);
    assert "/" + l + "/" + rest == "" + ['/'] + (l + ['/'] + rest);
    SplitAround("", '/', l + ['/'] + rest);
    SplitAround(l, '/', rest);
  }

  /** A path of the English site names its locale; the Chinese site may name it or not. */
  lemma SiteLocales()
    ensures LocaleFromPathname("/en-US/blog") == "en-US"
    ensures LocaleFromPathname("/zh") == "zh"
  {
    LocaleOfFirstSegment("en-US", "blog");
    assert "/" + "en-US" + "/" + "blog" == "/en-US/blog";
    LocaleOfFirstSegment("zh", "");
    assert "/" + "zh" == "/zh";
  }

  /** The root and the empty path give `'zh'`. */
  lemma RootFallsBack()
    ensures LocaleFromPathname("/") == "zh"
    ensures LocaleFromPathname("") == "zh"
  {
    LocaleOfFirstSegment("", "");
    assert "/" + "" == "/";
  }

  /** An unknown locale and a differently cased one give `'zh'`. */
  lemma UnknownLocaleFallsBack()
    ensures LocaleFromPathname("/fr/x") == "zh"
    ensures LocaleFromPathname("/en-us") == "zh"
  {
    LocaleOfFirstSegment("fr", "x");
    assert "/" + "fr" + "/" + "x" == "/fr/x";
    LocaleOfFirstSegment("en-us", "");
    assert "/" + "en-us" == "/en-us";
  }

  /** Without the leading `/`, the locale is the first piece and is not looked at. */
  lemma RelativePathFallsBack()
    ensures LocaleFromPathname("en-US/x") == "zh"
  {
    var l, x := "en-US", "x";
    assert '/' !in l && '/' !in x;
    SplitNoSeparator(l, '/');
    SplitNoSeparator(x, '/');
    SplitAround(l, '/', x);
    assert Split(l + ['/'] + x, '/') == [l, x];
    assert l + ['/'] + x == "en-US/x";
  }
}
