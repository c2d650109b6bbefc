/**
 * The mobile navigation menu of script.js:22-40: the class set of the menu
 * container `#nav-menu` and the class set of the `<i>` glyph inside the
 * `#nav-toggle` button.
 */
module Nav {
  import opened ClassList

  const Active := "active"
  const Bars := "fa-bars"
  const Times := "fa-times"

  datatype NavState = NavState(menu: Classes, icon: Classes)

  /** The menu is open when its container carries `active`. */
  predicate Open(s: NavState) {
    Active in s.menu
  }

  /** Exactly one of the hamburger and the close glyph is present. */
  predicate OneGlyph(s: NavState) {
    (Bars in s.icon) != (Times in s.icon)
  }

  /** The glyph agrees with the menu: the close glyph alone when open, the hamburger alone when closed. */
  predicate Consistent(s: NavState) {
    OneGlyph(s) && (Open(s) <==> Times in s.icon)
  }

  /**
   * A click on `#nav-toggle`: flips `active` on the menu and flips both
   * glyph classes; every other class is left as it was.
   */
  function ToggleMenu(s: NavState): (r: NavState)
    ensures Open(r) <==> !Open(s)
    ensures Bars in r.icon <==> Bars !in s.icon
    ensures Times in r.icon <==> Times !in s.icon
    ensures r.menu - {Active} == s.menu - {Active}
    ensures r.icon - {Bars, Times} == s.icon - {Bars, Times}
    ensures OneGlyph(s) ==> OneGlyph(r)
    ensures Consistent(s) ==> Consistent(r)
  {
    NavState(Toggle(s.menu, Active), Toggle(Toggle(s.icon, Bars), Times))
  }

  /**
   * A click on any `.nav-link`: whatever the state before, the menu is
   * closed and the hamburger alone is shown; other classes are untouched.
   */
  function CloseMenu(s: NavState): (r: NavState)
    ensures !Open(r)
    ensures Bars in r.icon && Times !in r.icon
    ensures Consistent(r)
    ensures r.menu - {Active} == s.menu - {Active}
    ensures r.icon - {Bars, Times} == s.icon - {Bars, Times}
  {
    NavState(Remove(s.menu, Active), Remove(Add(s.icon, Bars), Times))
  }

  /** Two clicks on the toggle give back the original state. */
  lemma ToggleMenuTwice(s: NavState)
    ensures ToggleMenu(ToggleMenu(s)) == s
  {
  }

  /** Closing twice is closing once. */
  lemma CloseMenuIdempotent(s: NavState)
    ensures CloseMenu(CloseMenu(s)) == CloseMenu(s)
  {
  }

  /** Closing forgets an earlier toggle: the link click decides alone. */
  lemma CloseAfterToggle(s: NavState)
    ensures CloseMenu(ToggleMenu(s)) == CloseMenu(s)
  {
  }

  /**
   * A closed menu reached by a link click opens with the close glyph alone
   * on the next toggle.
   */
  lemma ToggleAfterClose(s: NavState)
    ensures Open(ToggleMenu(CloseMenu(s)))
    ensures Times in ToggleMenu(CloseMenu(s)).icon && Bars !in ToggleMenu(CloseMenu(s)).icon
  {
  }
}
