/** The hamburger menu (script.js:258-282). A click on the hamburger toggles
    the `is-active` class of the hamburger and of the navigation menu, then
    locks the page's scrolling when the menu ended up open and unlocks it
    otherwise. A click on a `.nav-link` while the menu is open closes both
    and unlocks scrolling; while it is closed it changes nothing. */
module Menu {
  /** `document.body.style.overflow` while the menu is open. */
  const Locked: string := "hidden"
  /** The empty inline value, which leaves scrolling to the stylesheet. */
  const Unlocked: string := ""

  /** The hamburger's and the menu's `is-active` classes and the body's
      inline `overflow`. */
  datatype MenuState = MenuState(hamburger: bool, menu: bool, overflow: string)

  /** The page as loaded: both closed, no inline overflow. */
  const Initial: MenuState := MenuState(false, false, Unlocked)

  /** The markers agree and scrolling is locked exactly while the menu is
      open. */
  predicate Coupled(s: MenuState) {
    s.hamburger == s.menu && s.overflow == (if s.menu then Locked else Unlocked)
  }

  /** The state after a hamburger click. */
  function Toggled(s: MenuState): (r: MenuState)
    ensures r.hamburger == !s.hamburger && r.menu == !s.menu
    ensures r.overflow == Locked <==> r.menu
  {
    var menu := !s.menu;
    MenuState(!s.hamburger, menu, if menu then Locked else Unlocked)
  }

  /** The state after a navigation-link click. */
  function LinkClicked(s: MenuState): (r: MenuState)
    ensures s.menu ==> r == MenuState(false, false, Unlocked)
    ensures !s.menu ==> r == s
  {
    if s.menu then MenuState(false, false, Unlocked) else s
  }

  /** A hamburger click keeps the markers and the scroll lock in step. */
  lemma ToggledKeepsCoupled(s: MenuState)
    requires Coupled(s)
    ensures Coupled(Toggled(s))
  {
  }

  /** Opening then closing, or closing then opening, restores both markers
      and the scroll lock. */
  lemma ToggledTwice(s: MenuState)
    requires Coupled(s)
    ensures Toggled(Toggled(s)) == s
  {
  }

  /** A link click keeps the markers and the scroll lock in step, and leaves
      the menu closed. */
  lemma LinkClickedKeepsCoupled(s: MenuState)
    requires Coupled(s)
    ensures Coupled(LinkClicked(s)) && !LinkClicked(s).menu
  {
  }

  /** A click on the hamburger or on a navigation link. */
  datatype Event = HamburgerClick | LinkClick

  /** The state after one click. */
  function Step(s: MenuState, e: Event): MenuState {
    match e
    case HamburgerClick => Toggled(s)
    case LinkClick => LinkClicked(s)
  }

  /** The state after `events`, in order. */
  function Run(s: MenuState, events: seq<Event>): MenuState
    decreases |events|
  {
    if events == [] then s else Step(Run(s, events[..|events| - 1]), events[|events| - 1])
  }

  /** Whatever the clicks, the markers never come apart and scrolling is
      locked exactly while the menu is open. */
  lemma {:induction false} RunKeepsCoupled(s: MenuState, events: seq<Event>)
    requires Coupled(s)
    ensures Coupled(Run(s, events))
    decreases |events|
  {
    if events != [] {
      var before := Run(s, events[..|events| - 1]);
      RunKeepsCoupled(s, events[..|events| - 1]);
      if events[|events| - 1] == HamburgerClick {
        ToggledKeepsCoupled(before);
      } else {
        LinkClickedKeepsCoupled(before);
      }
    }
  }

  /** The number of hamburger clicks since the last link click. */
  function TrailingToggles(events: seq<Event>): nat
    decreases |events|
  {
    if events == [] || events[|events| - 1] == LinkClick then 0
    else TrailingToggles(events[..|events| - 1]) + 1
  }

  /** From the page as loaded, every reachable state is coupled, and the
      menu is open exactly when an odd number of hamburger clicks followed
      the last link click. */
  lemma {:induction false} MenuOpenIffOddToggles(events: seq<Event>)
    ensures Coupled(Run(Initial, events))
    ensures Run(Initial, events).menu <==> TrailingToggles(events) % 2 == 1
    decreases |events|
  {
    RunKeepsCoupled(Initial, events);
    if events != [] {
      MenuOpenIffOddToggles(events[..|events| - 1]);
    }
  }

  /** The hamburger, the navigation menu and the page body. */
  class NavMenu {
    var hamburgerActive: bool
    var menuActive: bool
    var bodyOverflow: string

    constructor ()
      ensures State() == Initial
    {
      hamburgerActive := false;
      menuActive := false;
      bodyOverflow := Unlocked;
    }

    function State(): MenuState
      reads this
    {
      MenuState(hamburgerActive, menuActive, bodyOverflow)
    }

    /** The hamburger's click handler. */
    method Toggle()
      modifies this
      ensures State() == Toggled(old(State()))
    {
      hamburgerActive := !hamburgerActive;
      menuActive := !menuActive;
      if menuActive {
        bodyOverflow := Locked;
      } else {
        bodyOverflow := Unlocked;
      }
    }

    /** A navigation link's click handler. */
    method NavLinkClick()
      modifies this
      ensures State() == LinkClicked(old(State()))
    {
      if menuActive {
        hamburgerActive := false;
        menuActive := false;
        bodyOverflow := Unlocked;
      }
    }
  }
}
