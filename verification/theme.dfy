/** The light/dark theme switch of js/theme.js: the theme chosen on load,
    the toggle button and the reaction to a change of the system colour
    scheme. `localStorage`, the `data-theme` attribute and the button are
    fields of one state value. */
module Theme {
  import opened Text

  const Light: string := "light"
  const Dark: string := "dark"
  const Sun: string := "☀️"
  const Moon: string := "\U{1F319}"

  /** `localStorage.getItem('theme')` is `null` (`None`) or a string; both
      `null` and the empty string are falsy. */
  predicate Saved(stored: Option<string>)
  {
    stored.Some? && stored.value != ""
  }

  /** `theme` is the manager's field, `attr` the `data-theme` attribute of
      the document element, `icon` the toggle button's content once the
      button exists. */
  datatype State = State(theme: string, stored: Option<string>, attr: string, icon: Option<string>)

  /** The button shows a sun in dark mode and a moon otherwise. */
  function Icon(theme: string): (i: string)
    ensures i == Sun <==> theme == Dark
    ensures i == Sun || i == Moon
  {
    if theme == Dark then Sun else Moon
  }

  /** `getInitialTheme`: a saved choice wins, then the system preference,
      then light. */
  function InitialTheme(stored: Option<string>, prefersDark: bool): (t: string)
    ensures t != ""
    ensures Saved(stored) ==> t == stored.value
    ensures !Saved(stored) ==> (t == Dark <==> prefersDark) && (t == Light <==> !prefersDark)
  {
    if Saved(stored) then stored.value
    else if prefersDark then Dark
    else Light
  }

  /** `applyTheme`: sets the attribute and, if the button exists, its icon. */
  function Apply(st: State, theme: string): (r: State)
    ensures r.attr == theme && r.theme == st.theme && r.stored == st.stored
    ensures r.icon.Some? <==> st.icon.Some?
    ensures r.icon.Some? ==> r.icon.value == Icon(theme)
  {
    st.(attr := theme, icon := if st.icon.Some? then Some(Icon(theme)) else None)
  }

  /** The page agrees with the manager: attribute and icon show its theme. */
  predicate Consistent(st: State)
  {
    st.attr == st.theme && st.icon == Some(Icon(st.theme))
  }

  /** The constructor: choose, apply (no button yet), create the button. */
  function Start(stored: Option<string>, prefersDark: bool, attr: string): (st: State)
    ensures Consistent(st) && st.stored == stored
    ensures st.theme == InitialTheme(stored, prefersDark)
  {
    var theme := InitialTheme(stored, prefersDark);
    var applied := Apply(State(theme, stored, attr, None), theme);
    applied.(icon := Some(Icon(theme)))
  }

  /** `toggle`: light becomes dark, anything else becomes light, and the
      choice is saved. */
  function Toggle(st: State): (r: State)
    ensures Consistent(st) ==> Consistent(r)
    ensures r.stored == Some(r.theme) && Saved(r.stored)
    ensures r.theme == Dark <==> st.theme == Light
  {
    var theme := if st.theme == Light then Dark else Light;
    var applied := Apply(st.(theme := theme), theme);
    applied.(stored := Some(theme))
  }

  /** The `change` listener: follows the system only while nothing is saved. */
  function SystemChange(st: State, matches: bool): (r: State)
    ensures Consistent(st) ==> Consistent(r)
    ensures r.stored == st.stored
    ensures Saved(st.stored) ==> r == st
    ensures !Saved(st.stored) ==> r.theme == (if matches then Dark else Light)
  {
    if !Saved(st.stored) then
      var theme := if matches then Dark else Light;
      Apply(st.(theme := theme), theme)
    else st
  }

  /** Toggling twice restores a light or dark page, except that the choice
      is now saved. */
  lemma {:induction false} ToggleTwice(st: State)
    requires st.theme == Light || st.theme == Dark
    requires Consistent(st)
    ensures Toggle(Toggle(st)) == st.(stored := Some(st.theme))
  {
  }

  /** Once the user has toggled, the system scheme no longer matters. */
  lemma {:induction false} ToggleThenSystem(st: State, matches: bool)
    ensures SystemChange(Toggle(st), matches) == Toggle(st)
  {
  }

  /** The theme a page shows after reloading is the one last toggled to. */
  lemma {:induction false} ToggleSurvivesReload(st: State, prefersDark: bool, attr: string)
    ensures Start(Toggle(st).stored, prefersDark, attr).theme == Toggle(st).theme
  {
  }

  /** Events after loading: a click on the button or a system change. */
  datatype Event = Click | SchemeChange(matches: bool)

  function Step(st: State, e: Event): State
  {
    match e
    case Click => Toggle(st)
    case SchemeChange(m) => SystemChange(st, m)
  }

  function Run(st: State, es: seq<Event>): State
    decreases |es|
  {
    if |es| == 0 then st else Run(Step(st, es[0]), es[1..])
  }

  /** Whatever happens after loading, the attribute and the icon show the
      manager's theme. */
  lemma {:induction false} RunConsistent(stored: Option<string>, prefersDark: bool, attr: string, es: seq<Event>)
    ensures Consistent(Run(Start(stored, prefersDark, attr), es))
  {
    RunKeeps(Start(stored, prefersDark, attr), es);
  }

  lemma {:induction false} RunKeeps(st: State, es: seq<Event>)
    requires Consistent(st)
    ensures Consistent(Run(st, es))
    decreases |es|
  {
    if |es| > 0 {
      RunKeeps(Step(st, es[0]), es[1..]);
    }
  }
}
