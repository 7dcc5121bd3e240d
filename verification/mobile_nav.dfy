/**
 The mobile navigation drawer: the drawer's `hidden` class and
 `aria-hidden` attribute and the toggle button's `aria-expanded`
 attribute, changed by the toggle button, window resizes and in-page
 anchor clicks. Nothing happens unless both elements exist.
 */
module MobileNav {

  /** Widths above this are the desktop layout. */
  const DesktopWidth: int := 860

  datatype Nav = Nav(wired: bool, hiddenClass: bool, ariaHidden: string, ariaExpanded: string)

  /** The three attributes agree: closed and hidden, or open and shown. */
  predicate Closed(n: Nav) {
    n.hiddenClass && n.ariaHidden == "true" && n.ariaExpanded == "false"
  }

  predicate Open(n: Nav) {
    !n.hiddenClass && n.ariaHidden == "false" && n.ariaExpanded == "true"
  }

  predicate Synced(n: Nav) {
    Closed(n) || Open(n)
  }

  /** `closeMobileNav`. */
  function CloseNav(n: Nav): (n': Nav)
    ensures n.wired ==> Closed(n')
    ensures !n.wired || Closed(n) ==> n' == n
    ensures n'.wired == n.wired
  {
    if !n.wired then n else Nav(true, true, "true", "false")
  }

  /** `openMobileNav`. */
  function OpenNav(n: Nav): (n': Nav)
    ensures n.wired ==> Open(n')
    ensures !n.wired || Open(n) ==> n' == n
    ensures n'.wired == n.wired
  {
    if !n.wired then n else Nav(true, false, "false", "true")
  }

  /** A click on the toggle button (only listened for when both elements exist). */
  function Toggle(n: Nav): (n': Nav)
    ensures n.wired ==> (n'.ariaExpanded == "true" <==> n.ariaExpanded != "true")
    ensures n.wired ==> (n'.hiddenClass <==> n'.ariaExpanded != "true") && Synced(n')
    ensures !n.wired ==> n' == n
    ensures n'.wired == n.wired
  {
    if !n.wired then n
    else if n.ariaExpanded == "true" then CloseNav(n)
    else OpenNav(n)
  }

  /** A window resize to `width`. */
  function Resize(n: Nav, width: int): (n': Nav)
    ensures n.wired && width > DesktopWidth ==> Closed(n')
    ensures width <= DesktopWidth || !n.wired ==> n' == n
    ensures n'.wired == n.wired
  {
    if n.wired && width > DesktopWidth then CloseNav(n) else n
  }

  /**
   A click on an in-page anchor with attribute `href`: on a narrow window,
   following a real fragment to a target that `document.querySelector(href)`
   finds closes the drawer. `targetExists` is whether that lookup finds an
   element; an `href` that is not a valid selector makes the lookup throw,
   which is modelled as `targetExists` false.
   */
  function AnchorClick(n: Nav, href: string, targetExists: bool, width: int): (n': Nav)
    ensures n.wired && href != "#" && |href| > 1 && targetExists && width <= DesktopWidth ==> Closed(n')
    ensures href == "#" || |href| <= 1 || !targetExists || width > DesktopWidth ==> n' == n
    ensures !n.wired ==> n' == n
    ensures n'.wired == n.wired
  {
    if href != "#" && |href| > 1 && targetExists && width <= DesktopWidth then CloseNav(n) else n
  }

  /** Closing twice is closing once. */
  lemma CloseIdempotent(n: Nav)
    ensures CloseNav(CloseNav(n)) == CloseNav(n)
  {
  }

  /** Two clicks on the toggle undo each other once the attributes agree. */
  lemma ToggleTwice(n: Nav)
    requires Synced(n)
    ensures Toggle(Toggle(n)) == n
  {
  }

  /** Every operation keeps the attributes in agreement. */
  lemma OperationsKeepSynced(n: Nav, width: int, href: string, targetExists: bool)
    requires Synced(n)
    ensures Synced(CloseNav(n)) && Synced(OpenNav(n)) && Synced(Toggle(n))
    ensures Synced(Resize(n, width)) && Synced(AnchorClick(n, href, targetExists, width))
  {
  }
}
