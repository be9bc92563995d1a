/** Interface state that more than one page script keeps, each written once:
    the narrow-screen navigation menu and its dropdown (js/main.js, and the
    same dropdown code again in js/branches.js), a group of buttons of which
    the clicked one is the active one (the events page's view toggle and
    gallery filter), the FAQ accordion that keeps at most one item open (the
    donations and contact pages), and the IntersectionObserver reveal that
    animates an element once (donations, contact and branches pages). */
module Widgets {

  /** What a script last wrote to an element's `style.display`; `Unset` is an
      element whose inline display was never written. */
  datatype Display = Unset | Block | Flex | InlineBlock | Hidden

  /** Below this `innerWidth` the page is in its mobile layout. */
  const MobileBreakpoint: int := 992

  /** The `.nav-list` element's `active` class and the body's `menu-open`
      class. Every handler changes the two together, so they stay equal. */
  class NavMenu {
    var listActive: bool
    var bodyMenuOpen: bool

    ghost predicate Valid()
      reads this
    {
      listActive == bodyMenuOpen
    }

    constructor ()
      ensures Valid() && !listActive
    {
      listActive, bodyMenuOpen := false, false;
    }

    /** A click on `.mobile-menu-toggle` toggles both classes. */
    method Toggle()
      requires Valid()
      modifies this
      ensures Valid() && listActive == !old(listActive)
    {
      listActive := !listActive;
      bodyMenuOpen := !bodyMenuOpen;
    }

    /** A click anywhere in the document closes an open menu, unless it
        landed inside `.main-nav` or on the toggle. */
    method DocumentClick(insideNav: bool, onToggle: bool)
      requires Valid()
      modifies this
      ensures Valid()
      ensures listActive == (old(listActive) && (insideNav || onToggle))
    {
      if listActive && !insideNav && !onToggle {
        listActive := false;
        bodyMenuOpen := false;
      }
    }

    /** Following an in-page link first closes an open menu. */
    method CloseForNavigation()
      requires Valid()
      modifies this
      ensures Valid() && !listActive
    {
      if listActive {
        listActive := false;
        bodyMenuOpen := false;
      }
    }
  }

  /** The `.has-dropdown` item's `active` class. The click handler exists
      only if the page loaded below the breakpoint, and it toggles only while
      the window is still below it; a resize to the breakpoint or wider clears
      the class. */
  class Dropdown {
    const clickHandlerAttached: bool
    var active: bool

    ghost predicate Valid()
      reads this
    {
      active ==> clickHandlerAttached
    }

    constructor (widthAtLoad: int)
      ensures Valid()
      ensures clickHandlerAttached == (widthAtLoad < MobileBreakpoint) && !active
    {
      clickHandlerAttached := widthAtLoad < MobileBreakpoint;
      active := false;
    }

    /** A click on the dropdown's link; `prevented` is whether the link's
        navigation was cancelled. */
    method Click(width: int) returns (prevented: bool)
      requires Valid()
      modifies this
      ensures Valid()
      ensures prevented == (clickHandlerAttached && width < MobileBreakpoint)
      ensures active == (if prevented then !old(active) else old(active))
    {
      prevented := false;
      if clickHandlerAttached {
        if width < MobileBreakpoint {
          prevented := true;
          active := !active;
        }
      }
    }

    method Resize(width: int)
      requires Valid()
      modifies this
      ensures Valid()
      ensures active == (old(active) && width < MobileBreakpoint)
    {
      if width >= MobileBreakpoint {
        active := false;
      }
    }
  }

  /** The `active` class across a group of buttons. */
  class ButtonGroup {
    var active: seq<bool>

    constructor (active: seq<bool>)
      ensures this.active == active
    {
      this.active := active;
    }

    /** Every button loses `active`, then the clicked one gains it: afterwards
        the clicked button is the only active one. */
    method Activate(clicked: nat)
      requires clicked < |active|
      modifies this
      ensures |active| == |old(active)|
      ensures forall k :: 0 <= k < |active| ==> (active[k] <==> k == clicked)
    {
      var k := 0;
      while k < |active|
        invariant 0 <= k <= |active| == |old(active)|
        invariant forall j :: 0 <= j < k ==> !active[j]
      {
        active := active[k := false];
        k := k + 1;
      }
      active := active[clicked := true];
    }
  }

  predicate AtMostOneActive(active: seq<bool>) {
    forall j, k :: 0 <= j < |active| && 0 <= k < |active| && active[j] && active[k] ==> j == k
  }

  /** FAQ items whose question click opens the item and closes the others. */
  class ExclusiveAccordion {
    var active: seq<bool>

    constructor (active: seq<bool>)
      ensures this.active == active
    {
      this.active := active;
    }

    /** The clicked item toggles and every other active item closes:
        afterwards at most one item is open, and clicking the open item
        leaves none open. */
    method Click(clicked: nat)
      requires clicked < |active|
      modifies this
      ensures |active| == |old(active)|
      ensures active[clicked] == !old(active[clicked])
      ensures forall k :: 0 <= k < |active| && k != clicked ==> !active[k]
      ensures AtMostOneActive(active)
      ensures old(active[clicked]) ==> forall k :: 0 <= k < |active| ==> !active[k]
    {
      active := active[clicked := !active[clicked]];
      var k := 0;
      while k < |active|
        invariant 0 <= k <= |active| == |old(active)|
        invariant active[clicked] == !old(active[clicked])
        invariant forall j :: 0 <= j < k && j != clicked ==> !active[j]
      {
        if k != clicked && active[k] {
          active := active[k := false];
        }
        k := k + 1;
      }
    }
  }

  /** Elements an IntersectionObserver watches until their first
      intersection, when they gain `animate` and are unobserved. Each element
      is either still observed or already animated, never both, so the class
      is added at most once and is never removed. */
  class Reveal {
    var animated: seq<bool>
    var observed: seq<bool>

    ghost predicate Valid()
      reads this
    {
      |animated| == |observed| && forall k :: 0 <= k < |animated| ==> animated[k] != observed[k]
    }

    /** Every element starts observed and not animated. */
    constructor (count: nat)
      ensures Valid() && |animated| == count
      ensures forall k :: 0 <= k < count ==> observed[k] && !animated[k]
    {
      animated := seq(count, _ => false);
      observed := seq(count, _ => true);
    }

    /** The observer reports an entry for element k; it reports only elements
        it still observes. */
    method Deliver(k: nat, isIntersecting: bool)
      requires Valid() && k < |observed| && observed[k]
      modifies this
      ensures Valid()
      ensures animated == old(animated)[k := isIntersecting]
      ensures observed == old(observed)[k := !isIntersecting]
    {
      if isIntersecting {
        animated := animated[k := true];
        observed := observed[k := false];
      }
    }
  }
}
