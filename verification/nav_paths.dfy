/**
 * The path rules components/Header.tsx and components/MobileMenu.tsx each spell out: the
 * non-empty segments of the pathname, the locale prefix, the page path after it, which
 * navigation item is active, and the href of an item. components/LanguageSwitcher.tsx
 * derives the page path the same way.
 */
module NavPaths {
  import opened Text
  import opened Lists
  import opened I18n

  /** `filter(Boolean)` on strings. */
  function NonEmpty(): string -> bool {
    (s: string) => s != ""
  }

  /** `pathname.split('/').filter(Boolean)`. */
  function Segments(pathname: string): seq<string> {
    Filter(Split(pathname, '/'), NonEmpty())
  }

  /** Segments as `Segments` yields them: non-empty and free of `/`. */
  predicate Clean(segments: seq<string>) {
    forall i | 0 <= i < |segments| :: segments[i] != "" && '/' !in segments[i]
  }

  /** `locales.includes(firstSegment)`; an absent first segment is not a locale. */
  predicate IsLocalePrefix(segments: seq<string>) {
    |segments| > 0 && segments[0] in Locales
  }

  /** The locale of the page: the prefix, or the default locale without one. */
  function PathLocale(segments: seq<string>): string {
    if IsLocalePrefix(segments) then segments[0] else DefaultLocale
  }

  /** The segments of the page path: the locale prefix dropped. */
  function PageSegments(segments: seq<string>): seq<string> {
    if IsLocalePrefix(segments) then segments[1..] else segments
  }

  /** `remainingPath`. */
  function RemainingPath(segments: seq<string>): string {
    Join(PageSegments(segments), '/')
  }

  /** `isActive(path)`: the home item on the home page, any other item by string prefix. */
  predicate IsActive(remainingPath: string, path: string) {
    if path == "" then remainingPath == "" else IsPrefix(path, remainingPath)
  }

  /** `buildHref(path)`: no prefix for the default locale, `/locale` for the other. */
  function BuildHref(locale: string, path: string): string {
    if locale == DefaultLocale then (if path != "" then "/" + path else "/")
    else if path != "" then "/" + locale + "/" + path
    else "/" + locale
  }

  /** The navigation items of the header and of the mobile menu. */
  const HeaderItems: seq<string> := ["", "blog", "about"]
  const MenuItems: seq<string> := ["", "blog", "search", "about"]

  lemma SegmentsClean(pathname: string)
    ensures Clean(Segments(pathname))
  {
    var pieces := Split(pathname, '/');
    SplitPieces(pathname, '/');
    FilterKeeps(pieces, NonEmpty());
    var segments := Segments(pathname);
    forall i | 0 <= i < |segments| ensures segments[i] != "" && '/' !in segments[i] {
      assert segments[i] in segments;
    }
  }

  /** A `/` separates: the segments of the two sides, one after the other. */
  lemma SegmentsAround(a: string, b: string)
    ensures Segments(a + "/" + b) == Segments(a) + Segments(b)
  {
    assert a + "/" + b == a + ['/'] + b;
    SplitAround(a, '/', b);
    FilterAppend(Split(a, '/'), Split(b, '/'), NonEmpty());
  }

  /** Leading, trailing and repeated slashes are ignored. */
  lemma SlashesIgnored(a: string, b: string)
    ensures Segments("/" + a) == Segments(a)
    ensures Segments(a + "/") == Segments(a)
    ensures Segments(a + "//" + b) == Segments(a + "/" + b)
  {
    assert Segments("") == [];
    SegmentsAround("", a);
    assert "" + "/" + a == "/" + a;
    SegmentsAround(a, "");
    assert a + "/" + "" == a + "/";
    SegmentsAround(a, "/" + b);
    assert a + "/" + ("/" + b) == a + "//" + b;
    SegmentsAround("", b);
    assert "" + "/" + b == "/" + b;
    SegmentsAround(a, b);
  }

  /** Joining segments with `/` and splitting again gives them back. */
  lemma SegmentsOfJoin(segments: seq<string>)
    requires Clean(segments)
    ensures Segments(Join(segments, '/')) == segments
    ensures Segments("/" + Join(segments, '/')) == segments
    ensures Join(segments, '/') == "" <==> segments == []
  {
    if segments == [] {
      assert Segments("") == [];
    } else {
      SplitJoin(segments, '/');
      FilterAll(segments, NonEmpty());
      JoinFirst(segments);
    }
    SlashesIgnored(Join(segments, '/'), "");
  }

  /** A join starts with its first piece. */
  lemma JoinFirst(segments: seq<string>)
    requires |segments| > 0
    ensures |Join(segments, '/')| >= |segments[0]|
    ensures Join(segments, '/')[..|segments[0]|] == segments[0]
  {
  }

  /** Prefixing a locale segment to a page path. */
  lemma JoinPrefixed(l: string, page: seq<string>)
    ensures Join([l] + page, '/') == if page == [] then l else l + "/" + Join(page, '/')
  {
    assert ([l] + page)[0] == l && ([l] + page)[1..] == page;
  }

  /**
   * `isActive('')` holds exactly on the home page; any other item is a plain prefix test, so
   * `blog` is active on `blogger`.
   */
  lemma ActiveItems(remainingPath: string)
    ensures IsActive(remainingPath, "") <==> remainingPath == ""
    ensures IsActive("blogger", "blog")
    ensures IsActive("blog/first-post", "blog")
    ensures !IsActive("", "blog")
  {
    assert "blogger"[..4] == "blog";
    assert "blog/first-post"[..4] == "blog";
  }

  /** At most one item of the mobile menu, and so of the header, is active on any page. */
  lemma AtMostOneActive(remainingPath: string, i: nat, j: nat)
    requires i < j < |MenuItems|
    ensures IsActive(remainingPath, MenuItems[i]) ==> !IsActive(remainingPath, MenuItems[j])
  {
    var a, b := MenuItems[i], MenuItems[j];
    assert b != "" && a != b;
    if IsActive(remainingPath, a) {
      if i == 0 {
        assert remainingPath == "";
      } else {
        assert remainingPath[0] == a[0] && a[0] != b[0];
        PrefixDiffers(b, remainingPath, 0);
      }
    }
  }

  /**
   * Every href is absolute; the default locale adds no prefix, the other locale its own
   * segment.
   */
  lemma HrefShape(locale: string, path: string)
    ensures IsPrefix("/", BuildHref(locale, path))
    ensures locale == DefaultLocale ==> BuildHref(locale, path) == "/" + path
    ensures locale != DefaultLocale ==> IsPrefix("/" + locale, BuildHref(locale, path))
  {
    var h := BuildHref(locale, path);
    assert h[..1] == "/";
    if locale != DefaultLocale {
      assert h[..|locale| + 1] == "/" + locale;
    }
  }

  /**
   * The href of the current page is `/` followed by its segments, without a leading `zh`
   * segment.
   */
  lemma CurrentPageHref(pathname: string)
    ensures var segments := Segments(pathname);
      BuildHref(PathLocale(segments), RemainingPath(segments)) ==
        "/" + Join(if |segments| > 0 && segments[0] == DefaultLocale then segments[1..] else segments, '/')
  {
    var segments := Segments(pathname);
    SegmentsClean(pathname);
    if IsLocalePrefix(segments) && segments[0] != DefaultLocale {
      var page := segments[1..];
      assert segments == [segments[0]] + page;
      assert Clean(page) by {
        forall i | 0 <= i < |page| ensures page[i] != "" && '/' !in page[i] {
          assert page[i] == segments[i + 1];
        }
      }
      PrefixedHref(segments[0], page);
    }
  }

  /** The href of a page path in a locale other than the default one. */
  lemma PrefixedHref(locale: string, page: seq<string>)
    requires locale != DefaultLocale && Clean(page)
    ensures BuildHref(locale, Join(page, '/')) == "/" + Join([locale] + page, '/')
  {
    SegmentsOfJoin(page);
    JoinPrefixed(locale, page);
    assert "/" + locale + "/" + Join(page, '/') == "/" + (locale + "/" + Join(page, '/'));
  }

  /**
   * Following the href of a page path leads to that page in that locale, when the path does
   * not itself begin with a locale segment.
   */
  lemma HrefLeadsTo(locale: string, page: seq<string>)
    requires locale in Locales && Clean(page)
    requires page != [] ==> page[0] !in Locales
    ensures var href := BuildHref(locale, Join(page, '/'));
      && PathLocale(Segments(href)) == locale
      && RemainingPath(Segments(href)) == Join(page, '/')
  {
    if locale == DefaultLocale {
      DefaultHrefLeadsTo(page);
    } else {
      OtherHrefLeadsTo(locale, page);
    }
  }

  lemma DefaultHrefLeadsTo(page: seq<string>)
    requires Clean(page)
    requires page != [] ==> page[0] !in Locales
    ensures Segments(BuildHref(DefaultLocale, Join(page, '/'))) == page
  {
    SegmentsOfJoin(page);
    assert BuildHref(DefaultLocale, Join(page, '/')) == "/" + Join(page, '/');
  }

  lemma OtherHrefLeadsTo(locale: string, page: seq<string>)
    requires locale in Locales && locale != DefaultLocale && Clean(page)
    ensures Segments(BuildHref(locale, Join(page, '/'))) == [locale] + page
  {
    var prefixed := [locale] + page;
    assert Clean(prefixed) by {
      forall i | 0 <= i < |prefixed| ensures prefixed[i] != "" && '/' !in prefixed[i] {
        if i > 0 {
          assert prefixed[i] == page[i - 1];
        }
      }
    }
    PrefixedHref(locale, page);
    SegmentsOfJoin(prefixed);
  }

  /** Every header and menu item's href leads to that item's page in the given locale. */
  lemma NavHrefsLeadToItems(locale: string, item: string)
    requires locale in Locales && (item in HeaderItems || item in MenuItems)
    ensures var href := BuildHref(locale, item);
      && PathLocale(Segments(href)) == locale
      && RemainingPath(Segments(href)) == item
  {
    var page := if item == "" then [] else [item];
    assert '/' !in item && item !in Locales;
    assert Join(page, '/') == item;
    HrefLeadsTo(locale, page);
  }

  /**
   * A page path that begins with a locale segment is not reached from the default locale:
   * on `/zh/en-US` the page path is `en-US`, whose href `/en-US` is the English home page.
   */
  lemma LocaleLikePageLeavesLocale(l: string)
    requires l in Locales && l != DefaultLocale
    ensures PathLocale([DefaultLocale, l]) == DefaultLocale
    ensures RemainingPath([DefaultLocale, l]) == l
    ensures Segments(BuildHref(DefaultLocale, l)) == [l]
    ensures PathLocale([l]) == l
  {
    assert PageSegments([DefaultLocale, l]) == [l];
    assert Clean([l]);
    SegmentsOfJoin([l]);
    assert BuildHref(DefaultLocale, l) == "/" + Join([l], '/');
  }
}
