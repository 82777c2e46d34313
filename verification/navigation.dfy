/** The fixed navigation bar: it turns solid once the page has scrolled past
    a threshold, and on narrow screens it has a menu that the menu button
    toggles and that a link click closes. */
module Navigation {
  import opened Optional

  /** One entry of the bar: the label shown and the in-page anchor. */
  datatype NavItem = NavItem(name: string, href: string)

  /** The six sections the bar links to, in display order. */
  function NavItems(): seq<NavItem>
  {
    [ NavItem("Home", "#home"),
      NavItem("About", "#about"),
      NavItem("Facilities", "#facilities"),
      NavItem("Rooms", "#rooms"),
      NavItem("Gallery", "#gallery"),
      NavItem("Contact", "#contact")
    ]
  }

  /** ASCII lower-casing, which is all the labels need. */
  function LowerChar(c: char): (l: char)
    ensures 'A' <= c <= 'Z' ==> 'a' <= l <= 'z' && l as int - c as int == 32
    ensures !('A' <= c <= 'Z') ==> l == c
  {
    if 'A' <= c <= 'Z' then (c as int + 32) as char else c
  }

  function Lower(s: string): (l: string)
    ensures |l| == |s|
    ensures forall k :: 0 <= k < |s| ==> l[k] == LowerChar(s[k])
  {
    seq(|s|, k requires 0 <= k < |s| => LowerChar(s[k]))
  }

  /** An item whose anchor is `#` followed by its lower-cased label,
      stated character by character. */
  predicate AnchorMatchesName(item: NavItem)
  {
    && |item.href| == |item.name| + 1
    && item.href[0] == '#'
    && forall k :: 0 <= k < |item.name| ==> item.href[k + 1] == LowerChar(item.name[k])
  }

  /** The character-wise statement is the same as `href == "#" + Lower(name)`. */
  lemma AnchorIsLowerName(item: NavItem)
    ensures AnchorMatchesName(item) <==> item.href == "#" + Lower(item.name)
  {
  }

  /** The bar has six entries with distinct labels, and each one links to
      the section named by its lower-cased label. */
  lemma NavItemsWellFormed()
    ensures |NavItems()| == 6
    ensures forall j, k :: 0 <= j < k < |NavItems()| ==> NavItems()[j].name != NavItems()[k].name
    ensures forall k :: 0 <= k < |NavItems()| ==> AnchorMatchesName(NavItems()[k])
  {
    NavNamesDistinct();
    NavAnchors();
  }

  /** No two entries share a label. */
  lemma NavNamesDistinct()
    ensures forall j, k :: 0 <= j < k < |NavItems()| ==> NavItems()[j].name != NavItems()[k].name
  {
  }

  /** Every entry's anchor is its lower-cased label after `#`. */
  lemma NavAnchors()
    ensures forall k :: 0 <= k < |NavItems()| ==> AnchorMatchesName(NavItems()[k])
  {
  }

  datatype NavState = NavState(isScrolled: bool, isMobileMenuOpen: bool)

  /** State on mount: transparent bar, menu closed. */
  function Init(): (s: NavState)
    ensures !s.isScrolled && !s.isMobileMenuOpen
  {
    NavState(false, false)
  }

  /** Scroll offset, in pixels, past which the bar turns solid. */
  const ScrollThreshold: real := 50.0

  /** The events the bar reacts to. A link click carries its anchor; the
      smooth scroll it starts is outside this model. */
  datatype Event =
    | Scroll(scrollY: real)
    | MenuButton
    | MobileLinkClick(href: string)
    | DesktopLinkClick(href: string)

  /** The scroll handler: solid strictly past the threshold, from any state. */
  function OnScroll(s: NavState, scrollY: real): (r: NavState)
    ensures r.isScrolled <==> scrollY > ScrollThreshold
    ensures r.isMobileMenuOpen == s.isMobileMenuOpen
  {
    s.(isScrolled := scrollY > ScrollThreshold)
  }

  /** The menu button flips the menu and leaves the bar style alone. */
  function ToggleMenu(s: NavState): (r: NavState)
    ensures r.isMobileMenuOpen != s.isMobileMenuOpen
    ensures r.isScrolled == s.isScrolled
  {
    s.(isMobileMenuOpen := !s.isMobileMenuOpen)
  }

  function Step(s: NavState, e: Event): (r: NavState)
  {
    match e
    case Scroll(y) => OnScroll(s, y)
    case MenuButton => ToggleMenu(s)
    case MobileLinkClick(_) => s.(isMobileMenuOpen := false)
    case DesktopLinkClick(_) => s
  }

  /** A link in the mobile menu leaves the menu closed whatever its state
      and does not touch the bar style. */
  lemma MobileLinkCloses(s: NavState, href: string)
    ensures !Step(s, MobileLinkClick(href)).isMobileMenuOpen
    ensures Step(s, MobileLinkClick(href)).isScrolled == s.isScrolled
  {
  }

  /** A desktop link only scrolls the page: the bar state is unchanged. */
  lemma DesktopLinkInert(s: NavState, href: string)
    ensures Step(s, DesktopLinkClick(href)) == s
  {
  }

  /** Pressing the menu button twice restores the state. */
  lemma ToggleTwice(s: NavState)
    ensures ToggleMenu(ToggleMenu(s)) == s
  {
  }

  function Run(s: NavState, es: seq<Event>): NavState
    decreases |es|
  {
    if es == [] then s else Run(Step(s, es[0]), es[1..])
  }

  /** The events that can change the menu, and those that can change the
      bar style. */
  function MenuEvents(es: seq<Event>): (ms: seq<Event>)
    ensures forall k :: 0 <= k < |ms| ==> !ms[k].Scroll?
    ensures |ms| <= |es|
    decreases |es|
  {
    if es == [] then []
    else if es[0].Scroll? then MenuEvents(es[1..])
    else [es[0]] + MenuEvents(es[1..])
  }

  function ScrollEvents(es: seq<Event>): (ss: seq<Event>)
    ensures forall k :: 0 <= k < |ss| ==> ss[k].Scroll?
    ensures |ss| <= |es|
    decreases |es|
  {
    if es == [] then []
    else if es[0].Scroll? then [es[0]] + ScrollEvents(es[1..])
    else ScrollEvents(es[1..])
  }

  /** Scrolling never touches the menu and menu or link events never touch
      the bar style: each half of the state after any events is what the
      events concerning it alone would produce. */
  lemma {:induction false} ScrollAndMenuIndependent(s: NavState, es: seq<Event>)
    ensures Run(s, es).isMobileMenuOpen == Run(s, MenuEvents(es)).isMobileMenuOpen
    ensures Run(s, es).isScrolled == Run(s, ScrollEvents(es)).isScrolled
    decreases |es|
  {
    if es != [] {
      var e, rest := es[0], es[1..];
      ScrollAndMenuIndependent(Step(s, e), rest);
      if e.Scroll? {
        assert ScrollEvents(es) == [e] + ScrollEvents(rest);
        assert ScrollEvents(es)[0] == e && ScrollEvents(es)[1..] == ScrollEvents(rest);
        ProjectionsSeparate(Step(s, e), s, MenuEvents(rest));
      } else {
        assert MenuEvents(es) == [e] + MenuEvents(rest);
        assert MenuEvents(es)[0] == e && MenuEvents(es)[1..] == MenuEvents(rest);
        ProjectionsSeparate(Step(s, e), s, ScrollEvents(rest));
      }
    }
  }

  /** Each flag after any events depends on the starting state only through
      that same flag. */
  lemma {:induction false} ProjectionsSeparate(s: NavState, t: NavState, es: seq<Event>)
    ensures s.isMobileMenuOpen == t.isMobileMenuOpen ==>
            Run(s, es).isMobileMenuOpen == Run(t, es).isMobileMenuOpen
    ensures s.isScrolled == t.isScrolled ==> Run(s, es).isScrolled == Run(t, es).isScrolled
    decreases |es|
  {
    if es != [] {
      ProjectionsSeparate(Step(s, es[0]), Step(t, es[0]), es[1..]);
    }
  }

  /** Events without a scroll among them leave the bar style alone. */
  lemma {:induction false} NonScrollRunKeepsBar(s: NavState, es: seq<Event>)
    requires forall k :: 0 <= k < |es| ==> !es[k].Scroll?
    ensures Run(s, es).isScrolled == s.isScrolled
    decreases |es|
  {
    if es != [] {
      NonScrollRunKeepsBar(Step(s, es[0]), es[1..]);
    }
  }

  /** Scroll events alone leave the menu alone. */
  lemma {:induction false} ScrollRunKeepsMenu(s: NavState, es: seq<Event>)
    requires forall k :: 0 <= k < |es| ==> es[k].Scroll?
    ensures Run(s, es).isMobileMenuOpen == s.isMobileMenuOpen
    decreases |es|
  {
    if es != [] {
      ScrollRunKeepsMenu(Step(s, es[0]), es[1..]);
    }
  }

  /** The offset reported by the last scroll event among `es`. */
  function LastScrollY(es: seq<Event>): Option<real>
    decreases |es|
  {
    if es == [] then None
    else if LastScrollY(es[1..]).Some? then LastScrollY(es[1..])
    else if es[0].Scroll? then Some(es[0].scrollY)
    else None
  }

  /** After any events the bar is solid exactly when the last reported
      scroll offset was past the threshold, or as it was with no scroll. */
  lemma {:induction false} RunScrolled(s: NavState, es: seq<Event>)
    ensures Run(s, es).isScrolled ==
            (if LastScrollY(es).Some? then LastScrollY(es).value > ScrollThreshold else s.isScrolled)
    decreases |es|
  {
    if es != [] {
      RunScrolled(Step(s, es[0]), es[1..]);
    }
  }

  /** `k` presses of the menu button. */
  function MenuPresses(k: nat): (es: seq<Event>)
    ensures |es| == k
    ensures forall j :: 0 <= j < k ==> es[j] == MenuButton
  {
    seq(k, _ => MenuButton)
  }

  /** After `k` presses the menu is flipped exactly when `k` is odd. */
  lemma {:induction false} MenuParity(s: NavState, k: nat)
    ensures Run(s, MenuPresses(k)).isMobileMenuOpen == (s.isMobileMenuOpen != (k % 2 == 1))
    ensures Run(s, MenuPresses(k)).isScrolled == s.isScrolled
    decreases k
  {
    if k > 0 {
      assert MenuPresses(k)[0] == MenuButton;
      assert MenuPresses(k)[1..] == MenuPresses(k - 1);
      MenuParity(ToggleMenu(s), k - 1);
    }
  }
}
