/** The mobile navigation: the hamburger control and the navigation menu,
    each with an `active` flag, and the three click listeners that change
    them. A click first runs the listener of the element clicked and then
    bubbles to the document-wide listener. */
module MobileNav {

  datatype Nav = Nav(hamburgerActive: bool, menuActive: bool)

  /** Where a click lands. A navigation link may sit inside the menu or,
      in some markup, outside it. */
  datatype Target =
    | Hamburger
    | NavLink(insideMenu: bool)
    | InsideMenu
    | Outside

  /** The menu is shown consistently: both flags agree. */
  predicate Synced(s: Nav) {
    s.hamburgerActive == s.menuActive
  }

  predicate Closed(s: Nav) {
    !s.hamburgerActive && !s.menuActive
  }

  /** The hamburger's listener toggles `active` on both elements. */
  function Toggle(s: Nav): Nav {
    Nav(!s.hamburgerActive, !s.menuActive)
  }

  /** A navigation link's listener removes `active` from both elements. */
  function CloseMenu(s: Nav): Nav {
    s.(hamburgerActive := false, menuActive := false)
  }

  /** The document's listener: a click outside both the hamburger and the
      menu closes the menu; any other click leaves it alone. */
  function OnDocumentClick(s: Nav, inHamburger: bool, inMenu: bool): Nav {
    if !inHamburger && !inMenu then CloseMenu(s) else s
  }

  /** One click, with its bubbling to the document. */
  function Dispatch(s: Nav, t: Target): (r: Nav)
    ensures Synced(s) ==> Synced(r)
    ensures t.Hamburger? ==> r.hamburgerActive == !s.hamburgerActive && r.menuActive == !s.menuActive
    ensures t.NavLink? || t.Outside? ==> Closed(r)
    ensures t.InsideMenu? ==> r == s
  {
    match t
    case Hamburger => OnDocumentClick(Toggle(s), true, false)
    case NavLink(insideMenu) => OnDocumentClick(CloseMenu(s), false, insideMenu)
    case InsideMenu => OnDocumentClick(s, false, true)
    case Outside => OnDocumentClick(s, false, false)
  }

  /** The state after a sequence of clicks. */
  function Run(s: Nav, clicks: seq<Target>): Nav
    decreases |clicks|
  {
    if clicks == [] then s else Run(Dispatch(s, clicks[0]), clicks[1..])
  }

  /** However the page is clicked, the hamburger and the menu never disagree,
      provided they agreed at the start. */
  lemma {:induction false} RunKeepsSynced(s: Nav, clicks: seq<Target>)
    requires Synced(s)
    ensures Synced(Run(s, clicks))
    decreases |clicks|
  {
    if clicks != [] {
      RunKeepsSynced(Dispatch(s, clicks[0]), clicks[1..]);
    }
  }

  /** A click outside a menu that is already closed changes nothing. */
  lemma OutsideClickOnClosedIsNoOp(s: Nav)
    requires Closed(s)
    ensures Dispatch(s, Outside) == s
  {
  }

  /** Two clicks on the hamburger return to where they started. */
  lemma ToggleTwiceRestores(s: Nav)
    ensures Dispatch(Dispatch(s, Hamburger), Hamburger) == s
  {
  }

  /** From an agreeing state, the hamburger opens the menu exactly when it
      was closed. */
  lemma HamburgerOpensIffClosed(s: Nav)
    requires Synced(s)
    ensures Dispatch(s, Hamburger).menuActive <==> Closed(s)
  {
  }

  /** A run of clicks that ends with a link or outside click leaves the menu
      closed. */
  lemma {:induction false} EndsClosed(s: Nav, clicks: seq<Target>)
    requires clicks != [] && (clicks[|clicks| - 1].NavLink? || clicks[|clicks| - 1].Outside?)
    ensures Closed(Run(s, clicks))
    decreases |clicks|
  {
    if |clicks| > 1 {
      assert clicks[1..][|clicks| - 2] == clicks[|clicks| - 1];
      EndsClosed(Dispatch(s, clicks[0]), clicks[1..]);
    }
  }
}
