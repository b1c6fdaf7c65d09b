/**
 * components/MobileMenu.tsx: the menu's open flag, over the pathname it is rendered for. The
 * path rules it shares with the header are in `NavPaths`.
 */
module MobileMenu {
  import opened NavPaths

  /** The item a click leads to is active once the menu is rendered on its page. */
  lemma ClickedItemActive(locale: string, item: string)
    requires locale in I18n.Locales && item in MenuItems
    ensures IsActive(RemainingPath(Segments(BuildHref(locale, item))), item)
  {
    NavHrefsLeadToItems(locale, item);
    if item != "" {
      assert item[..|item|] == item;
    }
  }

  /**
   * Following an item's link from any page lands on a page whose menu highlights that item
   * and builds its links for the same locale.
   */
  lemma ClickedItemHighlighted(m: Menu, next: Menu, item: string)
    requires item in MenuItems && next.pathname == m.Href(item)
    ensures next.Highlighted(item)
    ensures next.Locale() == m.Locale()
  {
    var locale := m.Locale();
    assert locale in I18n.Locales by {
      assert I18n.DefaultLocale in I18n.Locales;
    }
    NavHrefsLeadToItems(locale, item);
    ClickedItemActive(locale, item);
  }

  class Menu {
    /** `usePathname()`, which the menu reads and never changes. */
    const pathname: string
    var isOpen: bool

    constructor (pathname: string)
      ensures this.pathname == pathname && !isOpen
    {
      this.pathname := pathname;
      isOpen := false;
    }

    /** `locale`: the prefix of the pathname, or the default locale. */
    function Locale(): string {
      PathLocale(Segments(pathname))
    }

    /** `buildHref(item.path)`, the link of an item. */
    function Href(item: string): string {
      BuildHref(Locale(), item)
    }

    /** `isActive(item.path)`, which highlights an item. */
    predicate Highlighted(item: string) {
      IsActive(RemainingPath(Segments(pathname)), item)
    }

    /** The menu button. */
    method Open()
      modifies this
      ensures isOpen
    {
      isOpen := true;
    }

    /** The close button and the backdrop. */
    method Close()
      modifies this
      ensures !isOpen
    {
      isOpen := false;
    }

    /** handleNavClick: a click on an item closes the menu and changes nothing else. */
    method HandleNavClick()
      modifies this
      ensures !isOpen
    {
      isOpen := false;
    }

  }
}
