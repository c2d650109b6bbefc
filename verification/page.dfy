/**
 * The page as one explicit state record, and the script's click and scroll
 * handlers as a dispatch over events. Each handler touches only its own part
 * of the record; the scroll event fans out to the header, the active links
 * and the back-to-top control.
 */
module Page {
  import opened ClassList
  import Theme
  import Nav
  import Scroll

  datatype Page = Page(
    theme: Theme.ThemeState,
    nav: Nav.NavState,
    header: Classes,
    backToTop: Classes,
    sections: seq<Scroll.Section>,
    links: seq<Scroll.NavLink>)

  datatype Event = ThemeClick | NavToggleClick | NavLinkClick | ScrollTo(scrollY: int)

  /** The page after the handlers registered for `e` have run. */
  function Dispatch(p: Page, e: Event): (r: Page)
    ensures r.sections == p.sections
    ensures !e.ThemeClick? ==> r.theme == p.theme
    ensures !(e.NavToggleClick? || e.NavLinkClick?) ==> r.nav == p.nav
    ensures !e.ScrollTo? ==> r.header == p.header && r.backToTop == p.backToTop && r.links == p.links
    ensures e.NavLinkClick? ==> !Nav.Open(r.nav) && Nav.Consistent(r.nav)
    ensures e.ScrollTo? ==> (Scroll.Scrolled in r.header <==> e.scrollY > Scroll.HeaderThreshold)
    ensures e.ScrollTo? ==> (Scroll.Show in r.backToTop <==> e.scrollY > Scroll.BackToTopThreshold)
  {
    match e
    case ThemeClick => p.(theme := Theme.Toggle(p.theme))
    case NavToggleClick => p.(nav := Nav.ToggleMenu(p.nav))
    case NavLinkClick => p.(nav := Nav.CloseMenu(p.nav))
    case ScrollTo(y) =>
      p.(header := Scroll.HeaderClasses(p.header, y),
         backToTop := Scroll.BackToTopClasses(p.backToTop, y),
         links := Scroll.ActiveLinks(p.links, p.sections, y))
  }

  /** A run of events, in order. */
  function DispatchAll(p: Page, es: seq<Event>): Page
    decreases |es|
  {
    if |es| == 0 then p else DispatchAll(Dispatch(p, es[0]), es[1..])
  }

  /** Two scroll events leave the page as the second one alone would. */
  lemma ScrollForgetsHistory(p: Page, y1: int, y2: int)
    ensures Dispatch(Dispatch(p, ScrollTo(y1)), ScrollTo(y2)) == Dispatch(p, ScrollTo(y2))
  {
    Scroll.ThresholdsForgetHistory(p.header, p.backToTop, y1, y2);
    Scroll.HighlightForgetsHistory(p.links, Scroll.CurrentId(p.sections, y1), Scroll.CurrentId(p.sections, y2));
  }

  /** Scroll events never change the theme or the menu, however many there are. */
  lemma {:induction false} ScrollsKeepThemeAndMenu(p: Page, es: seq<Event>)
    requires forall i :: 0 <= i < |es| ==> es[i].ScrollTo?
    ensures DispatchAll(p, es).theme == p.theme
    ensures DispatchAll(p, es).nav == p.nav
    decreases |es|
  {
    if |es| > 0 {
      ScrollsKeepThemeAndMenu(Dispatch(p, es[0]), es[1..]);
    }
  }

  /** A click and a scroll commute: they write disjoint parts of the page. */
  lemma ClickCommutesWithScroll(p: Page, click: Event, y: int)
    requires !click.ScrollTo?
    ensures Dispatch(Dispatch(p, click), ScrollTo(y)) == Dispatch(Dispatch(p, ScrollTo(y)), click)
  {
  }

  /**
   * A non-empty run of scroll events leaves the scroll-driven state exactly
   * as its last event alone would.
   */
  lemma {:induction false} ScrollRunIsLastScroll(p: Page, es: seq<Event>)
    requires |es| > 0
    requires forall i :: 0 <= i < |es| ==> es[i].ScrollTo?
    ensures DispatchAll(p, es) == Dispatch(p, es[|es| - 1])
    decreases |es|
  {
    if |es| > 1 {
      var q := Dispatch(p, es[0]);
      ScrollRunIsLastScroll(q, es[1..]);
      assert es[1..][|es[1..]| - 1] == es[|es| - 1];
      ScrollForgetsHistory(p, es[0].scrollY, es[|es| - 1].scrollY);
    }
  }
}
