/**
 * The theme controller of script.js:4-17. The page's `data-theme` attribute,
 * the value saved under the storage key "theme" and the glyph shown inside the
 * theme toggle button are one immutable record; loading the page and clicking
 * the toggle are pure functions over it. Storage is a value in the record,
 * not I/O.
 */
module Theme {
  import opened Wrappers

  const Dark := "dark"
  const Light := "light"

  /**
   * The glyph inside the toggle button. `MarkupIcon` is whatever the HTML
   * shipped with; the script only ever replaces it by a sun or a moon.
   */
  datatype Icon = MarkupIcon | SunIcon | MoonIcon

  /** `attr` is `data-theme`, `stored` is the saved preference (None: absent). */
  datatype ThemeState = ThemeState(attr: string, stored: Option<string>, icon: Icon)

  /** The button shows the sun exactly when the dark theme is applied, else the moon. */
  predicate IconMatches(s: ThemeState) {
    s.icon == (if s.attr == Dark then SunIcon else MoonIcon)
  }

  /**
   * The state every toggle click leaves behind: a known theme, saved, with
   * the matching glyph.
   */
  predicate Synced(s: ThemeState) {
    && (s.attr == Dark || s.attr == Light)
    && s.stored == Some(s.attr)
    && IconMatches(s)
  }

  /**
   * `localStorage.getItem('theme') || 'light'`. JavaScript's `||` falls back
   * for every falsy left operand, so an absent key and an empty saved string
   * both give "light"; any other saved string is taken as is.
   */
  function InitialTheme(stored: Option<string>): (t: string)
    ensures t != ""
    ensures stored.Some? && stored.value != "" ==> t == stored.value
    ensures stored.None? || stored.value == "" ==> t == Light
  {
    match stored
    case Some(v) => if v != "" then v else Light
    case None => Light
  }

  /**
   * Page load: apply the saved theme (or "light"), leave storage alone, and
   * put the sun in the button only when that theme is "dark"; otherwise the
   * markup's glyph stays.
   */
  function Load(stored: Option<string>, markup: Icon): (s: ThemeState)
    ensures s.attr == InitialTheme(stored)
    ensures s.stored == stored
    ensures s.attr == Dark ==> s.icon == SunIcon
    ensures s.attr != Dark ==> s.icon == markup
  {
    var t := InitialTheme(stored);
    ThemeState(t, stored, if t == Dark then SunIcon else markup)
  }

  /** The theme a click switches to: "light" from "dark", "dark" from anything else. */
  function Flip(t: string): (r: string)
    ensures r == Dark <==> t != Dark
    ensures r == Dark || r == Light
  {
    if t == Dark then Light else Dark
  }

  /**
   * A click on the toggle: flip the applied attribute, save the new value,
   * and show the glyph for it.
   */
  function Toggle(s: ThemeState): (r: ThemeState)
    ensures r.attr == Flip(s.attr)
    ensures r.stored == Some(r.attr)
    ensures Synced(r)
  {
    var t := Flip(s.attr);
    ThemeState(t, Some(t), if t == Dark then SunIcon else MoonIcon)
  }

  /** `n` clicks in a row. */
  function ToggleTimes(s: ThemeState, n: nat): ThemeState
  {
    if n == 0 then s else Toggle(ToggleTimes(s, n - 1))
  }

  /** Two clicks from a synced state restore theme, saved value and glyph. */
  lemma ToggleTwiceRestores(s: ThemeState)
    requires Synced(s)
    ensures Toggle(Toggle(s)) == s
  {
  }

  /**
   * Two clicks from any dark or light state whose glyph matches it restore
   * the theme and the glyph, whatever was saved before; this covers a first
   * visit with nothing saved.
   */
  lemma ToggleTwiceRestoresShown(s: ThemeState)
    requires s.attr == Dark || s.attr == Light
    requires IconMatches(s)
    ensures Toggle(Toggle(s)).attr == s.attr
    ensures Toggle(Toggle(s)).icon == s.icon
  {
  }

  /**
   * After at least one click only the parity of the number of clicks
   * matters: an odd count equals one click, an even count equals two.
   */
  lemma {:induction false} ToggleParity(s: ThemeState, n: nat)
    requires n >= 1
    ensures ToggleTimes(s, n) == (if n % 2 == 1 then Toggle(s) else Toggle(Toggle(s)))
  {
    if n > 2 {
      var earlier := ToggleTimes(s, n - 2);
      ToggleParity(s, n - 2);
      assert Synced(earlier);
      ToggleTwiceRestores(earlier);
      assert ToggleTimes(s, n) == Toggle(Toggle(earlier));
    } else if n == 2 {
      assert ToggleTimes(s, 1) == Toggle(s);
    }
  }

  /**
   * The value a click saves is what the next page load applies: reloading
   * after a click shows the same theme, and the sun when that theme is dark.
   */
  lemma ReloadKeepsTheme(s: ThemeState, markup: Icon)
    ensures Load(Toggle(s).stored, markup).attr == Toggle(s).attr
    ensures Toggle(s).attr == Dark ==> Load(Toggle(s).stored, markup) == Toggle(s)
  {
  }

  /** A page loaded from a saved "dark" is already synced; "light" is synced once the glyph is the moon. */
  lemma LoadedDarkIsSynced(markup: Icon)
    ensures Synced(Load(Some(Dark), markup))
    ensures Synced(Load(Some(Light), markup)) <==> markup == MoonIcon
  {
  }
}
