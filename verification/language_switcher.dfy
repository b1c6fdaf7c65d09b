/**
 * components/LanguageSwitcher.tsx: a drop-down of the site's locales; choosing a locale other
 * than the current one navigates to the same page path under that locale's prefix.
 *
 * `useLocale()` and `usePathname()` are fixed for one rendering and become constants of the
 * `Switcher`; the `router.push` calls are recorded, oldest first, in `pushes`.
 */
module LanguageSwitcher {
  import opened Text
  import opened I18n
  import opened NavPaths

  /** `newPath`: the locale prefix always, then the page path when there is one. */
  function SwitchTarget(newLocale: string, remainingPath: string): string {
    if remainingPath != "" then "/" + newLocale + "/" + remainingPath else "/" + newLocale
  }

  /** The page segments of any pathname are clean. */
  lemma PageSegmentsClean(pathname: string)
    ensures Clean(PageSegments(Segments(pathname)))
  {
    var segments := Segments(pathname);
    SegmentsClean(pathname);
    var page := PageSegments(segments);
    if IsLocalePrefix(segments) {
      forall i | 0 <= i < |page| ensures page[i] != "" && '/' !in page[i] {
        assert page[i] == segments[i + 1];
      }
    }
  }

  /**
   * The target of a switch lies under the new locale's prefix, also for the default locale
   * (unlike a navigation href), and keeps the page: its segments are the new locale followed
   * by the page segments of the current pathname, so both the path rules of the header and
   * getLocaleFromPathname read the new locale from it, and its page path is the current one.
   */
  lemma SwitchKeepsPage(pathname: string, newLocale: string)
    requires newLocale in Locales
    ensures var t := SwitchTarget(newLocale, RemainingPath(Segments(pathname)));
      && IsPrefix("/" + newLocale, t)
      && Segments(t) == [newLocale] + PageSegments(Segments(pathname))
      && PathLocale(Segments(t)) == newLocale
      && RemainingPath(Segments(t)) == RemainingPath(Segments(pathname))
      && LocaleFromPathname(t) == newLocale
  {
    var page := PageSegments(Segments(pathname));
    var rp := Join(page, '/');
    var t := SwitchTarget(newLocale, rp);
    PageSegmentsClean(pathname);
    TargetSegments(newLocale, page);
    assert PageSegments([newLocale] + page) == page;
    assert t[..|newLocale| + 1] == "/" + newLocale;
    LocaleOfFirstSegment(newLocale, rp);
  }

  /** The target of a page path splits back into the locale and the page segments. */
  lemma TargetSegments(newLocale: string, page: seq<string>)
    requires newLocale in Locales && Clean(page)
    ensures Segments(SwitchTarget(newLocale, Join(page, '/'))) == [newLocale] + page
  {
    var rp := Join(page, '/');
    SegmentsOfJoin(page);
    var prefixed := [newLocale] + page;
    assert Clean(prefixed) by {
      forall i | 0 <= i < |prefixed| ensures prefixed[i] != "" && '/' !in prefixed[i] {
        if i > 0 {
          assert prefixed[i] == page[i - 1];
        }
      }
    }
    JoinPrefixed(newLocale, page);
    assert SwitchTarget(newLocale, rp) == "/" + Join(prefixed, '/') by {
      if rp != "" {
        assert "/" + newLocale + "/" + rp == "/" + (newLocale + "/" + rp);
      }
    }
    SegmentsOfJoin(prefixed);
  }

  class Switcher {
    /** `useLocale()`. */
    const locale: string
    /** `usePathname()`. */
    const pathname: string
    var isOpen: bool
    /** The paths passed to `router.push`, oldest first. */
    var pushes: seq<string>

    constructor (locale: string, pathname: string)
      ensures this.locale == locale && this.pathname == pathname
      ensures !isOpen && pushes == []
    {
      this.locale := locale;
      this.pathname := pathname;
      isOpen := false;
      pushes := [];
    }

    /** The button showing the current language opens and closes the list. */
    method Toggle()
      modifies this
      ensures isOpen == !old(isOpen) && pushes == old(pushes)
    {
      isOpen := !isOpen;
    }

    /**
     * switchLanguage: the list closes; choosing the current locale goes nowhere, any other
     * locale goes to the current page path under that locale.
     */
    method SwitchLanguage(newLocale: string)
      modifies this
      ensures !isOpen
      ensures newLocale == locale ==> pushes == old(pushes)
      ensures newLocale != locale ==>
        pushes == old(pushes) + [SwitchTarget(newLocale, RemainingPath(Segments(pathname)))]
      ensures newLocale != locale && newLocale in Locales ==>
        && LocaleFromPathname(pushes[|pushes| - 1]) == newLocale
        && RemainingPath(Segments(pushes[|pushes| - 1])) == RemainingPath(Segments(pathname))
    {
      if newLocale == locale {
        isOpen := false;
        return;
      }
      var remainingPath := RemainingPath(Segments(pathname));
      var newPath := if remainingPath != "" then "/" + newLocale + "/" + remainingPath else "/" + newLocale;
      pushes := pushes + [newPath];
      isOpen := false;
      if newLocale in Locales {
        SwitchKeepsPage(pathname, newLocale);
      }
    }
  }
}
