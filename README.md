# DRCL market-analysis site script, modelled in Dafny

The site's one script, `assets/js/main.js`, wires up four small pieces of page
behaviour. This project models each of them, with the DOM replaced by a few
fields, and proves what they do:

- **Active navigation link** (module `ActiveNavLink`, file `active_nav_link.dfy`).
  `setActiveNavLink` gives each `.nav__link` the class `nav__link--active`
  exactly when the location path matches the link's `href`. The match
  condition is the predicate `IsActive`. It is a literal `endsWith`, with a
  special case that lets `index.html` match `/` or any path ending in `/`.
  The per-link loop is the method `NavLinks.SetActiveNavLink`, which rewrites
  an `array<bool>` of per-link flags.
- **Mobile navigation toggle** (module `MobileNav`, file `mobile_nav.dfy`).
  The state is three things: the open class on `.nav__links`, the toggle's
  `aria-expanded` attribute and the icon's `href`. The handlers are pure
  transition functions (`ToggleClick`, `DocumentClick`, `Click`). The class
  `MobileNavigation` holds the three fields, and its listener methods are
  proved to follow those functions. The toggle sits inside `.nav`, so a click
  on it runs the toggle handler and then the document handler with an
  inside-`.nav` target.
- **Scroll reveal** (module `ScrollReveal`, file `scroll_reveal.dfy`). The
  IntersectionObserver becomes two sets on the class `RevealObserver`: the
  observed elements and the revealed elements. A ghost log `RevealOrder`
  records the order in which elements turned from pending to revealed. The
  callback `OnEntries` processes one batch in order. Each intersecting target
  is added to `revealed` and removed from `observed`. `isIntersecting` is an
  input.
- **Lazy spotlight** (module `Spotlight`, file `spotlight.dfy`). The
  module-level flag `spotlightLoaded` and the `{ once: true }` `mousemove`
  listener become fields of `SpotlightLoader`. Its invariant says at most one
  spotlight element and one tracking listener ever exist.

Two consequences of the code worth knowing:

- Matching is a literal `endsWith` (main.js:95-96), with no `.html` stripping,
  so the path `/pricing` does not activate a link to `pricing.html`
  (`ActiveNavLink.MatchingIsLiteral`). An empty `href` matches every path.
- The outside-click handler (main.js:77-80) resets the open class and
  `aria-expanded` but not the icon. A menu opened by the toggle and closed by
  an outside click therefore still shows `#icon-x`
  (`MobileNav.OutsideCloseLeavesOpenIcon`), while `aria-expanded` stays in
  agreement with the open class (`MobileNav.RunKeepsAriaConsistent`).

## Model

| member | source | states |
|---|---|---|
| ActiveNavLink.EndsWithAgreesWithReference | assets/js/main.js:95-96 | the slice-based `endsWith` agrees, in both directions, with a character-by-character comparison from the back |
| ActiveNavLink.EndsWith | assets/js/main.js:95-96 | `String.prototype.endsWith` as used there: true iff the suffix is no longer than the string and agrees with it character by character at the end |
| ActiveNavLink.IsActive | assets/js/main.js:95-96 | the `if` condition: a link other than `index.html` is active iff the path ends with its `href`; the `index.html` link is active iff the path ends with `index.html` or with `/` (the separate root test is subsumed) |
| ActiveNavLink.EmptyHrefAlwaysActive | assets/js/main.js:95 | a link with an empty `href` is active on every path, since every string ends with "" |
| ActiveNavLink.MatchingIsLiteral | assets/js/main.js:95-96 | `/pricing` does not activate `pricing.html`; `/pricing.html` activates `pricing.html` and `/pricing.html`; `/` activates `index.html`; `/pricing.html` does not |
| ActiveNavLink.ActiveFlags | assets/js/main.js:91-101 | one flag per link, and flag i is exactly the match condition for link i's `href` |
| ActiveNavLink.ActiveFlagsIndependent | assets/js/main.js:91-101 | each link's flag depends only on the path and its own `href`: the flags of two concatenated link lists are the concatenation of their flags |
| ActiveNavLink.NavLinks.constructor | assets/js/main.js:89 | the links as found in the markup, with their initial active classes |
| ActiveNavLink.NavLinks.SetActiveNavLink | assets/js/main.js:87-102 | afterwards the flag array equals `ActiveFlags(path, hrefs)`, whatever it held before, so a second run changes nothing |
| MobileNav.ToggleClick | assets/js/main.js:61-73 | the toggle handler flips `open` and sets `aria-expanded` to the new value; with an icon, it shows `#icon-x` iff open and `#icon-menu` iff closed; without one, the icon is untouched |
| MobileNav.DocumentClick | assets/js/main.js:76-81 | the document handler: an outside click while open gives closed, `"false"` and the same icon; an outside click while closed and any inside click change nothing |
| MobileNav.Click | assets/js/main.js:61-81 | one click runs the toggle handler and then the document handler with an inside target: a toggle click is exactly `ToggleClick`, an inside click changes nothing, an outside click is `DocumentClick`; every click keeps `aria-expanded` in agreement with `open` |
| MobileNav.ToggleTwiceRestores | assets/js/main.js:62-66 | two toggle clicks restore `open`; they restore `aria-expanded` when it agreed with `open`, and restore the whole state when the icon agreed too |
| MobileNav.ToggleTimesParity | assets/js/main.js:61-72 | n toggle clicks leave `open` unchanged for even n and flipped for odd n; after at least one click `aria-expanded` agrees with `open` |
| MobileNav.RunKeepsAriaConsistent | assets/js/main.js:61-81 | from a state where `aria-expanded` agrees with `open`, every sequence of clicks keeps it in agreement |
| MobileNav.OutsideCloseLeavesOpenIcon | assets/js/main.js:61-80 | toggle-open followed by an outside click leaves a closed menu with `aria-expanded` `"false"` still showing `#icon-x` |
| MobileNav.MobileNavigation.constructor | assets/js/main.js:55-59 | handlers are installed iff both the toggle and the links element exist; the state is the markup's |
| MobileNav.MobileNavigation.OnToggleClick | assets/js/main.js:61-73 | the new state is `ToggleClick` of the old one when installed, and the old state otherwise |
| MobileNav.MobileNavigation.OnDocumentClick | assets/js/main.js:76-81 | the new state is `DocumentClick` of the old one when installed, and the old state otherwise |
| MobileNav.MobileNavigation.OnClick | assets/js/main.js:61-81 | a click runs the listeners it reaches, and the new state is `Click` of the old one; without handlers, nothing changes |
| ScrollReveal.Intersecting | assets/js/main.js:27-28 | an element is in the result iff some entry of the batch targets it and is intersecting |
| ScrollReveal.NewlyRevealed | assets/js/main.js:27-33 | the elements a batch newly reveals have no duplicates and are exactly the intersecting targets not already revealed |
| ScrollReveal.NonIntersectingBatchIsNoOp | assets/js/main.js:28 | a batch with no intersecting entry reveals and unobserves nothing |
| ScrollReveal.RevealedTargetsAreNoOp | assets/js/main.js:28-41 | entries for already revealed elements change neither set and reveal nothing a second time |
| ScrollReveal.RevealObserver.constructor | assets/js/main.js:21-49 | an observer exists iff there are `[data-reveal]` elements; all of them are observed and none is revealed |
| ScrollReveal.RevealObserver.OnEntries | assets/js/main.js:26-43 | `revealed` grows by the batch's intersecting targets, `observed` loses them, and the reveal log grows by `NewlyRevealed`; no element is both observed and revealed, and none is revealed twice |
| ScrollReveal.ThreeElementsScenario | assets/js/main.js:26-49 | three elements, none visible at first, then element 2, then elements 1 and 3 cross the threshold: the batches newly reveal nothing, then [2], then [1, 3] |
| Spotlight.SpotlightLoader.constructor | assets/js/main.js:108 | the effect starts unloaded with the once-listener registered |
| Spotlight.SpotlightLoader.LoadSpotlightEffect | assets/js/main.js:110-135 | the first call sets the flag and creates one spotlight and one tracker; later calls change nothing |
| Spotlight.SpotlightLoader.OnMouseMove | assets/js/main.js:138 | the once-listener loads the effect on the first `mousemove` and is then gone |
| Spotlight.SpotlightLoader.LoadRepeatedly | assets/js/main.js:110-112 | any positive number of calls leaves the flag set and exactly one spotlight; the once-listener flag is untouched |

## Left out

- Intersection geometry: `rootMargin` and `threshold` (lines 45-46) are the browser's; `isIntersecting` is an input of each entry.
- The `willChange` style and its `setTimeout` reset (lines 30, 36-38): a timer with a purely presentational effect.
- IntersectionObserver delivery rules: the model accepts any batch. In the browser, a target unobserved in one callback gets no entries in later batches, though one batch may still name it again after `unobserve`; the model needs neither fact, since `RevealedTargetsAreNoOp` and the `RevealOrder` invariant already keep such entries from revealing anything twice.
- Event propagation order and DOM queries (`closest`, `querySelector`, `querySelectorAll`): each click is told where it landed, and the toggle is taken to lie inside `.nav`. Elements that the queries find or miss are constructor parameters.
- `getAttribute('href')` returning null for a link without an `href`: every link has a string `href`.
- The `DOMContentLoaded` handler (lines 6-15) only calls the three initialisers. It is represented by the constructors of `RevealObserver`, `MobileNavigation` and `NavLinks`; no page object composes them.
- Spotlight styling and mouse-coordinate tracking (lines 114-134): DOM and CSS only. The model counts the spotlight elements and tracking listeners that are created.
- Smooth scrolling for anchor links (lines 143-157): it delegates to `scrollIntoView`.
- `formatNumber` and `formatCurrency` (lines 163-178): wrappers over `Intl.NumberFormat`, with locale-dependent floating-point formatting.
