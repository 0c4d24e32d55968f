/** The mobile navigation toggle: `initMobileNav` in assets/js/main.js.
    The state is the class `nav__links--open` on `.nav__links`, the
    `aria-expanded` attribute of `.nav__toggle` and the `href` of the toggle's
    `svg use` icon. */
module MobileNav {

  const OpenIcon: string := "#icon-x"
  const ClosedIcon: string := "#icon-menu"

  /** `setAttribute` stores a boolean as the string "true" or "false". */
  function AttrOf(b: bool): string {
    if b then "true" else "false"
  }

  function IconFor(open: bool): string {
    if open then OpenIcon else ClosedIcon
  }

  datatype NavState = NavState(open: bool, ariaExpanded: string, iconHref: string)

  /** `aria-expanded` agrees with the open class. */
  predicate AriaConsistent(s: NavState) {
    s.ariaExpanded == AttrOf(s.open)
  }

  /** Where a click lands. The toggle sits inside `.nav`. */
  datatype ClickTarget = Toggle | InsideNav | OutsideNav

  /** The toggle's click handler; `hasIcon` says whether the toggle contains an
      `svg use` element. It flips `open`, sets `aria-expanded` to the new value
      and, if there is an icon, shows the close icon exactly when open. */
  function ToggleClick(s: NavState, hasIcon: bool): (r: NavState)
    ensures r.open == !s.open
    ensures AriaConsistent(r)
    ensures hasIcon ==> (r.iconHref == OpenIcon <==> r.open) && (r.iconHref == ClosedIcon <==> !r.open)
    ensures !hasIcon ==> r.iconHref == s.iconHref
  {
    var isOpen := !s.open;
    NavState(isOpen, AttrOf(isOpen), if hasIcon then IconFor(isOpen) else s.iconHref)
  }

  /** The document's click handler: a click outside `.nav` while open removes
      the open class and resets `aria-expanded`, and does not touch the icon; an
      outside click while closed, and any click inside `.nav`, change nothing. */
  function DocumentClick(s: NavState, insideNav: bool): (r: NavState)
    ensures !insideNav && s.open ==> !r.open && r.ariaExpanded == "false" && r.iconHref == s.iconHref
    ensures insideNav || !s.open ==> r == s
  {
    if !insideNav && s.open then NavState(false, "false", s.iconHref) else s
  }

  /** One click, with the handlers it reaches in bubbling order: the document
      handler never undoes a toggle click, and a click inside `.nav` that
      misses the toggle changes nothing. */
  function Click(s: NavState, hasIcon: bool, t: ClickTarget): (r: NavState)
    ensures t == Toggle ==> r == ToggleClick(s, hasIcon)
    ensures t == InsideNav ==> r == s
    ensures t == OutsideNav ==> r == DocumentClick(s, false)
    ensures AriaConsistent(s) ==> AriaConsistent(r)
  {
    match t
    case Toggle => DocumentClick(ToggleClick(s, hasIcon), true)
    case InsideNav => DocumentClick(s, true)
    case OutsideNav => DocumentClick(s, false)
  }

  /** A sequence of clicks, in order. */
  function Run(s: NavState, hasIcon: bool, clicks: seq<ClickTarget>): NavState
    decreases |clicks|
  {
    if clicks == [] then s else Run(Click(s, hasIcon, clicks[0]), hasIcon, clicks[1..])
  }

  /** `n` toggle clicks in a row. */
  function ToggleTimes(s: NavState, hasIcon: bool, n: nat): NavState {
    if n == 0 then s else ToggleClick(ToggleTimes(s, hasIcon, n - 1), hasIcon)
  }

  /** Two toggle clicks give back `open` and, when it agreed with `open`,
      `aria-expanded`. */
  lemma ToggleTwiceRestores(s: NavState, hasIcon: bool)
    ensures ToggleClick(ToggleClick(s, hasIcon), hasIcon).open == s.open
    ensures AriaConsistent(s) ==>
              ToggleClick(ToggleClick(s, hasIcon), hasIcon).ariaExpanded == s.ariaExpanded
    ensures AriaConsistent(s) && (hasIcon ==> s.iconHref == IconFor(s.open)) ==>
              ToggleClick(ToggleClick(s, hasIcon), hasIcon) == s
  {
  }

  /** An even number of toggle clicks restores `open`, an odd number flips it;
      after at least one click `aria-expanded` agrees with `open`. */
  lemma {:induction false} ToggleTimesParity(s: NavState, hasIcon: bool, n: nat)
    ensures ToggleTimes(s, hasIcon, n).open == (if n % 2 == 0 then s.open else !s.open)
    ensures n > 0 || AriaConsistent(s) ==> AriaConsistent(ToggleTimes(s, hasIcon, n))
  {
    if n > 0 {
      ToggleTimesParity(s, hasIcon, n - 1);
    }
  }

  /** Every click keeps `aria-expanded` in agreement with the open class. */
  lemma {:induction false} RunKeepsAriaConsistent(s: NavState, hasIcon: bool, clicks: seq<ClickTarget>)
    requires AriaConsistent(s)
    ensures AriaConsistent(Run(s, hasIcon, clicks))
    decreases |clicks|
  {
    if clicks != [] {
      var s' := Click(s, hasIcon, clicks[0]);
      assert AriaConsistent(s');
      RunKeepsAriaConsistent(s', hasIcon, clicks[1..]);
    }
  }

  /** The icon does not keep up: opening with the toggle and closing with an
      outside click leaves a closed menu showing the close icon. */
  lemma OutsideCloseLeavesOpenIcon()
    ensures var closed := NavState(false, "false", ClosedIcon);
            Run(closed, true, [Toggle, OutsideNav]) == NavState(false, "false", OpenIcon)
  {
  }

  /** The navigation elements of the page and the handlers installed on them. */
  class MobileNavigation {
    /** Both `.nav__toggle` and `.nav__links` were found, so the handlers exist. */
    const installed: bool
    /** The toggle contains an `svg use` icon. */
    const hasIcon: bool
    var open: bool
    var ariaExpanded: string
    var iconHref: string

    function State(): NavState
      reads this
    {
      NavState(open, ariaExpanded, iconHref)
    }

    /** initMobileNav on a page with the given elements and initial markup. */
    constructor (hasToggle: bool, hasLinks: bool, hasIcon: bool, markup: NavState)
      ensures installed == (hasToggle && hasLinks) && this.hasIcon == hasIcon
      ensures State() == markup
    {
      installed := hasToggle && hasLinks;
      this.hasIcon := hasIcon;
      open, ariaExpanded, iconHref := markup.open, markup.ariaExpanded, markup.iconHref;
    }

    /** The toggle's click listener. */
    method OnToggleClick()
      modifies this
      ensures State() == if installed then ToggleClick(old(State()), hasIcon) else old(State())
    {
      if installed {
        open := !open;
        var isOpen := open;
        ariaExpanded := AttrOf(isOpen);
        if hasIcon {
          iconHref := if isOpen then OpenIcon else ClosedIcon;
        }
      }
    }

    /** The document's click listener. */
    method OnDocumentClick(insideNav: bool)
      modifies this
      ensures State() == if installed then DocumentClick(old(State()), insideNav) else old(State())
    {
      if installed && !insideNav && open {
        open := false;
        ariaExpanded := "false";
      }
    }

    /** One click on the page: the listeners it reaches, innermost first. */
    method OnClick(t: ClickTarget)
      modifies this
      ensures State() == if installed then Click(old(State()), hasIcon, t) else old(State())
    {
      match t
      case Toggle =>
        OnToggleClick();
        OnDocumentClick(true);
      case InsideNav =>
        OnDocumentClick(true);
      case OutsideNav =>
        OnDocumentClick(false);
    }
  }
}
