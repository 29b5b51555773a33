/** The mobile menu of js/navigation.js. The classes of the menu, the
    hamburger button and the overlay, the button's `aria-expanded` attribute
    and the body's `overflow` style are fields of one state value; the
    listeners are a step function over events. */
module Navigation {
  import opened Text

  datatype Menu = Menu(navActive: bool, hamburgerActive: bool, overlayActive: bool,
                       expanded: Option<string>, overflow: string)

  /** `openMenu`. */
  function Open(m: Menu): (r: Menu)
    ensures r.navActive && r.hamburgerActive && r.overlayActive
    ensures r.expanded == Some("true") && r.overflow == "hidden"
  {
    Menu(true, true, true, Some("true"), "hidden")
  }

  /** `closeMenu`: also resets the body's scrolling, whatever it was. */
  function Close(m: Menu): (r: Menu)
    ensures !r.navActive && !r.hamburgerActive && !r.overlayActive
    ensures r.expanded == Some("false") && r.overflow == ""
  {
    Menu(false, false, false, Some("false"), "")
  }

  /** `toggleMenu`: decided by the menu's own class. */
  function Toggle(m: Menu): (r: Menu)
    ensures r.navActive == !m.navActive
  {
    if m.navActive then Close(m) else Open(m)
  }

  /** The button, the overlay and the page agree with the menu. */
  predicate Consistent(m: Menu)
  {
    && m.hamburgerActive == m.navActive
    && m.overlayActive == m.navActive
    && m.overflow == (if m.navActive then "hidden" else "")
    && (m.navActive ==> m.expanded == Some("true"))
    && (m.expanded.Some? ==> m.expanded.value == (if m.navActive then "true" else "false"))
  }

  /** The page as loaded: all closed; `aria-expanded` is whatever the markup
      says. */
  function Initial(expanded: Option<string>): (m: Menu)
    ensures expanded == None || expanded == Some("false") ==> Consistent(m)
    ensures !m.navActive
  {
    Menu(false, false, false, expanded, "")
  }

  datatype Event = HamburgerClick | OverlayClick | LinkClick | KeyDown(key: string)

  /** The listeners of `init`; none is installed unless the hamburger, the
      menu and the overlay all exist. */
  function Step(present: bool, m: Menu, e: Event): (r: Menu)
    ensures !present ==> r == m
    ensures present && (e.OverlayClick? || e.LinkClick?) ==> r == Close(m)
    ensures present && e.KeyDown? ==> r == (if e.key == "Escape" && m.navActive then Close(m) else m)
  {
    if !present then m
    else
      match e
      case HamburgerClick => Toggle(m)
      case OverlayClick => Close(m)
      case LinkClick => Close(m)
      case KeyDown(key) => if key == "Escape" && m.navActive then Close(m) else m
  }

  function Run(present: bool, m: Menu, es: seq<Event>): Menu
    decreases |es|
  {
    if |es| == 0 then m else Run(present, Step(present, m, es[0]), es[1..])
  }

  /** Every listener keeps the page in agreement with the menu. */
  lemma {:induction false} StepConsistent(present: bool, m: Menu, e: Event)
    requires Consistent(m)
    ensures Consistent(Step(present, m, e))
  {
  }

  /** Whatever the user does, the page stays in agreement with the menu:
      scrolling is blocked exactly while the menu is open. */
  lemma {:induction false} RunConsistent(present: bool, m: Menu, es: seq<Event>)
    requires Consistent(m)
    ensures Consistent(Run(present, m, es))
    decreases |es|
  {
    if |es| > 0 {
      StepConsistent(present, m, es[0]);
      RunConsistent(present, Step(present, m, es[0]), es[1..]);
    }
  }

  /** Closing twice is closing once. */
  lemma {:induction false} CloseIdempotent(m: Menu)
    ensures Close(Close(m)) == Close(m)
  {
  }

  /** Two clicks on the hamburger restore a menu that has been opened or
      closed before. */
  lemma {:induction false} ToggleTwice(m: Menu)
    requires Consistent(m) && m.expanded.Some?
    ensures Toggle(Toggle(m)) == m
  {
  }

  /** Escape on a closed menu changes nothing; on an open one it closes it. */
  lemma {:induction false} EscapeCloses(m: Menu)
    requires Consistent(m)
    ensures !Step(true, m, KeyDown("Escape")).navActive
    ensures !m.navActive ==> Step(true, m, KeyDown("Escape")) == m
  {
  }
}
