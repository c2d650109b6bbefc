# Portfolio page script, modelled in Dafny

This project models the decision logic of `script.js`, the one script of a
personal portfolio page. The DOM is replaced by an explicit, immutable page
record, and each event handler becomes a pure transition over that record:

- the **theme controller**: the `data-theme` attribute, the saved `theme`
  preference and the glyph in the toggle button (`theme.dfy`);
- the **mobile menu**: the `active` class of the menu and the `fa-bars` /
  `fa-times` classes of its glyph (`nav.dfy`);
- the **scroll handlers**: the header's `scrolled` class past offset 100, the
  back-to-top control's `show` class past offset 500, and the active-section
  scan that marks the nav link `#<id>` of the last section whose top minus
  200 the offset has reached (`scroll.dfy`);
- the **typing animation** `typeWriter`, as a string loop (`typewriter.dfy`);
- the **skill percentage counter** of `animateSkills`, as a tick loop with
  exact arithmetic (`skills.dfy`);
- the page record and the dispatch of clicks and scroll events over it
  (`page.dfy`).

`classlist.dfy` gives the set semantics of `classList.add`, `remove`,
`toggle` and `toggle(c, force)`; `wrappers.dfy` holds `Option`.

Points where the model follows the code rather than an informal reading of
the page's behaviour:

- A section becomes current 200 units before its top reaches the viewport
  top, because the test is `scrollY >= offsetTop - 200`; so at offset 0 a
  section whose top is 0 (or anything up to 200) is already current.
- On load with a light theme the button keeps the glyph of the markup; the
  moon is only ever written by a toggle click.
- The intersection callback has no "animate once" guard: each re-entry of the
  skills section into the viewport starts the counters again. That callback
  is not part of this model (see below), and no guard is modelled.
- The saved preference is read with `||`, so an empty saved string falls back
  to "light" just as a missing one does; any other saved string, even one
  that is neither "dark" nor "light", is applied as is, and the next click
  turns it into "dark".
- `parseInt` of a `data-skill` that is not a number gives NaN, and since
  `NaN >= NaN` is false the counter's interval never clears; the model states
  this (`Skills.NaNNeverStops`). A negative value stops after one tick.

The skill counter in the script adds `skillValue / 100` in IEEE double
arithmetic. The model uses exact arithmetic: after `k` ticks `current` is
`k * n / 100`, the label is `floor(k * n / 100)`, and the stop test is
`k * n >= 100 * n`. With exact values a positive `n` stops after exactly 100
ticks. The script's doubles drift from this often, not rarely. For 80, one
hundred additions of 0.8 give 79.99999999999984 in binary64 arithmetic, so
the script shows 79% on tick 100 and stops on tick 101. Its labels also run
one lower than the exact ones on some ticks: for 80, 7% instead of 8% at
tick 10 and 39% instead of 40% at tick 50. Among the values 1 to 100, 46
take 101 ticks, and 63 show a lower label on at least one tick. The final
label is `n%` in both, because the stopping tick writes `skillValue`
itself. The members under "## Left out" that start with `Skills.` say which
contracts hold only under exact arithmetic.

## Model

| member | source | states |
|---|---|---|
| ClassList.Add | script.js:37 | `classList.add(c)` makes `c` present and changes no other class. |
| ClassList.Remove | script.js:35-38 | `classList.remove(c)` makes `c` absent and changes no other class. |
| ClassList.Toggle | script.js:26-29 | `classList.toggle(c)` flips the membership of `c` and changes no other class. |
| ClassList.Force | script.js:58 | `classList.toggle(c, force)` makes `c` present exactly when `force` holds and changes no other class. |
| ClassList.ToggleTwice | script.js:26-29 | Toggling the same class twice restores the set. |
| ClassList.ForceLastWins | script.js:58 | A forced toggle forgets every earlier forced toggle of the same class. |
| Theme.InitialTheme | script.js:5 | The applied theme is the saved value when one is saved and non-empty, and "light" for a missing or empty saved value; it is never empty. |
| Theme.Load | script.js:5-10 | Loading applies the initial theme, leaves storage unchanged, shows the sun when that theme is "dark" and otherwise leaves the markup's glyph in place. |
| Theme.Flip | script.js:13 | The next theme is "dark" exactly when the applied one is not "dark", and is always "dark" or "light". |
| Theme.Toggle | script.js:12-17 | A click switches "dark" to "light" and every other value to "dark", saves exactly the applied value, and leaves a synced state: known theme, saved, sun iff dark and moon otherwise. |
| Theme.ToggleTwiceRestores | script.js:12-17 | From any synced state, two clicks restore theme, saved value and glyph. |
| Theme.ToggleTwiceRestoresShown | script.js:12-17 | From any dark or light theme with the matching glyph, whatever is saved (a first visit with nothing saved included), two clicks restore theme and glyph. |
| Theme.ToggleParity | script.js:12-17 | After one or more clicks only the parity of the click count matters: odd equals one click, even equals two. |
| Theme.ReloadKeepsTheme | script.js:5-15 | The value a click saves is the theme the next page load applies; for dark the reloaded state equals the state after the click, glyph included. |
| Theme.LoadedDarkIsSynced | script.js:5-10 | A load from a saved "dark" is synced; a load from a saved "light" is synced exactly when the markup's glyph is the moon. |
| Nav.ToggleMenu | script.js:25-30 | The toggle flips the menu's `active` and each of `fa-bars` and `fa-times`, changes no other class, keeps exactly-one-glyph, and keeps the glyph consistent with the menu. |
| Nav.CloseMenu | script.js:33-40 | A link click leaves the menu closed with `fa-bars` alone whatever the prior state, changing no other class. |
| Nav.ToggleMenuTwice | script.js:25-30 | Two toggle clicks restore the original menu and glyph classes. |
| Nav.CloseMenuIdempotent | script.js:33-40 | Closing twice equals closing once. |
| Nav.CloseAfterToggle | script.js:25-40 | A link click after a toggle gives the same state as the link click alone. |
| Nav.ToggleAfterClose | script.js:25-40 | A toggle after a link click opens the menu with `fa-times` alone. |
| Scroll.HeaderClasses | script.js:57-58 | The header carries `scrolled` iff the offset exceeds 100; no other class changes. |
| Scroll.BackToTopClasses | script.js:171 | The back-to-top control carries `show` iff the offset exceeds 500; no other class changes. |
| Scroll.ThresholdsForgetHistory | script.js:57-58 | Header and back-to-top classes after two scroll events equal those after the second alone: they depend on the current offset only. |
| Scroll.LastReached | script.js:68-71 | The result is the last section in document order with `scrollY >= offsetTop - 200`, and is absent exactly when no section qualifies. |
| Scroll.ScanCurrent | script.js:67-71 | The in-order overwriting loop ends with the id of the last qualifying section, or "" when none qualifies. |
| Scroll.CurrentId | script.js:68-71 | The current id is "" when no section is reached, and a non-empty current id is the id of a reached section. |
| Scroll.CurrentIdIsLastReached | script.js:68-71 | The current id is that of the reached section with no reached section after it: later sections win. |
| Scroll.Highlight | script.js:72-74 | Each link is active iff its href equals `#` plus the current id; hrefs, order, count and other classes are unchanged. |
| Scroll.ActiveLinks | script.js:67-75 | One scroll event's link update: with no section reached exactly the bare "#" links are active; in general a link is active iff its href is `#` plus the current id of `Scroll.CurrentId` (the last reached section's); hrefs and other classes are kept. |
| Scroll.HighlightForgetsHistory | script.js:72-74 | Highlighting twice equals highlighting with the latest current id alone. |
| Scroll.NoSectionReached | script.js:67-75 | When no section qualifies, the active links are exactly those whose href is "#". |
| Scroll.AtMostOneActive | script.js:72-74 | With pairwise distinct hrefs, at most one link is active. |
| Scroll.ThreeSectionExample | script.js:67-71 | With sections at tops 0, 800, 1600, offsets 0, 850 and 1650 make the first, second and third current; an offset below -200 makes none current. |
| TypeWriter.Step | script.js:180-185 | One call of `type` appends `text[i]` and advances `i` exactly while `i` is below the text's length, and otherwise changes nothing. |
| TypeWriter.RunShowsPrefix | script.js:177-186 | After k calls, k at most the text's length, the content is the length-k prefix of the text. |
| TypeWriter.RunEndsWithText | script.js:180-185 | From the text's length on, every further call leaves the full text and appends nothing. |
| TypeWriter.Animate | script.js:177-186 | The loop performs exactly one append per character, shows every prefix in order starting from "", and ends with the full text; empty text gives empty content. |
| TypeWriter.HiExample | script.js:177-186 | Typing "Hi" shows "", "H", "Hi". |
| Skills.Tick | script.js:96-102 | A cleared interval no longer changes the counter; an armed tick counts one more, stops exactly when `current >= n` (never for NaN), shows `floor(current)%` while running and exactly `n%` when it stops. |
| Skills.ReachedFirstAt | script.js:97-99 | Among ticks 1 to the stopping tick, `current >= n` first holds at tick 100 for positive n and at tick 1 otherwise. |
| Skills.ShownBounded | script.js:97-98 | For n at least 0 and at most 100 ticks, the shown `floor(current)` lies between 0 and n. |
| Skills.ShownMonotone | script.js:97-98 | For n at least 0 the shown `floor(current)` never decreases from one tick to a later one. |
| Skills.RunBeforeStop | script.js:94-99 | Before the stopping tick the interval stays armed and the label is `floor(k * n / 100)%`. |
| Skills.RunStops | script.js:96-102 | At tick 100 (positive n) or tick 1 (otherwise) the interval clears with the label exactly `n%`, and later ticks change nothing. |
| Skills.NaNNeverStops | script.js:82-99 | A `data-skill` that parses to NaN never clears the interval and shows `NaN%` on every tick. |
| Skills.Animate | script.js:92-103 | The tick loop terminates for every integer after 100 or 1 ticks, shows `floor(current)` each tick, stays within 0..n and non-decreasing for n at least 0, and ends with exactly `n%`, agreeing with the tick-by-tick counter. |
| Skills.EightyExample | script.js:94-102 | Under exact arithmetic, a skill of 80 shows 79% on tick 99 and stops at tick 100 with exactly 80%. |
| Page.Dispatch | script.js:12-75 | Each event changes only its own part of the page; a link click leaves the menu closed and consistent; a scroll sets header and back-to-top classes by the thresholds. |
| Page.ScrollForgetsHistory | script.js:57-75 | Two scroll events leave the page as the second alone would, links included. |
| Page.ScrollsKeepThemeAndMenu | script.js:57-75 | Any run of scroll events leaves theme and menu state unchanged. |
| Page.ClickCommutesWithScroll | script.js:12-75 | A click and a scroll event give the same page in either order. |
| Page.ScrollRunIsLastScroll | script.js:57-75 | A non-empty run of scroll events leaves the page as its last event alone would. |

## Left out

- DOM queries, event listener registration and `innerHTML` mechanics: the
  model works on class sets and strings; HTML interpretation of appended
  characters is not modelled.
- `localStorage` reads and writes: the saved value is a field of the theme
  record, and storage failures are not modelled.
- Offsets are integers; browsers may report a fractional `scrollY`.
- Layout changes between events are not modelled: the page record fixes
  each section's `offsetTop`, while the script reads `offsetTop` again on
  every scroll event. `Page.ClickCommutesWithScroll` relies on a click never
  moving a section.
- Links without an `href` attribute (`getAttribute` gives null and never
  matches) are not modelled: every link has a string href.
- `typeWriter` indexes UTF-16 code units with `charAt`; the model indexes
  Dafny characters, so a character outside the Basic Multilingual Plane
  is one step here and two in the script. The hero title's `textContent` is
  taken as the given text.
- Skills.Animate: exact arithmetic instead of IEEE doubles. The script's
  sum often falls short, as for 80 (79.99999999999984 after 100 ticks), so
  46 of the values 1 to 100 stop on tick 101 and some labels read one lower;
  the tick count and labels stated here hold only for exact arithmetic. The
  data-skill string is given already parsed (`parseInt` itself is not
  modelled).
- Skills.ReachedFirstAt: the stop test first holds at tick 100 only in exact
  arithmetic; in the script's doubles it first holds at tick 101 for 80 and
  45 other values in 1 to 100.
- Skills.RunBeforeStop: the label `floor(k * n / 100)%` is the exact one; the
  script's double sum shows one lower on some ticks, e.g. 39% instead of 40%
  at tick 50 for 80, and 79% at tick 100.
- Skills.RunStops: stopping at tick 100 for positive values holds only in
  exact arithmetic; the script's 80 clears on tick 101. The final label is
  `n%` in both.
- Skills.EightyExample: the script's 80 shows 79% on tick 100 and stops on
  tick 101; the lemma states the exact-arithmetic run.
- Skills.Tick: the stop test and label use the exact `current`; the
  script's rounding errors in `current` are not modelled.
- The intersection observer (threshold, root margin, firing), the
  `animateTechStack` stagger and the `animated` class insert: timing-driven
  plumbing with no rule beyond a set insert.
- `setTimeout` / `setInterval` scheduling, the 200 ms stagger, the 500 ms
  start delay and all real time: ticks and typing calls are loop steps.
- The progress ring's `strokeDasharray` / `strokeDashoffset` from
  `2 * Math.PI * 45`, and the parallax transforms: floating-point styling.
- The contact form's EmailJS submission: a third-party network call.
- Smooth scrolling to anchors, the back-to-top click, project-card hover,
  the empty `showNotification` stub and console logging: no rule to state.
