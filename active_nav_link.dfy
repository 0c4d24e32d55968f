/** Active navigation link highlighting: `setActiveNavLink` in assets/js/main.js.
    Each `.nav__link` gets the class `nav__link--active` exactly when the
    current location path "matches" its `href` attribute. */
module ActiveNavLink {

  /** JavaScript's `s.endsWith(suffix)` (no position argument): the last
      |suffix| characters of `s` are `suffix`. The empty suffix ends every string. */
  predicate EndsWith(s: string, suffix: string)
    ensures EndsWith(s, suffix) <==>
              |suffix| <= |s| && forall i :: 0 <= i < |suffix| ==> s[|s| - |suffix| + i] == suffix[i]
  {
    |suffix| <= |s| && s[|s| - |suffix|..] == suffix
  }

  /** A reference definition of "ends with", comparing one character at a time
      from the back. */
  predicate EndsWithByChars(s: string, suffix: string)
    decreases |suffix|
  {
    if suffix == [] then true
    else s != [] && s[|s| - 1] == suffix[|suffix| - 1]
         && EndsWithByChars(s[..|s| - 1], suffix[..|suffix| - 1])
  }

  lemma {:induction false} EndsWithAgreesWithReference(s: string, suffix: string)
    ensures EndsWith(s, suffix) <==> EndsWithByChars(s, suffix)
    decreases |suffix|
  {
    if suffix != [] && s != [] {
      var s', t' := s[..|s| - 1], suffix[..|suffix| - 1];
      EndsWithAgreesWithReference(s', t');
      if EndsWith(s, suffix) {
        assert s[|s| - 1] == suffix[|suffix| - 1];
        assert s'[|s'| - |t'|..] == t' by {
          assert s'[|s'| - |t'|..] == s[|s| - |suffix|..][..|t'|];
        }
      }
      if EndsWithByChars(s, suffix) {
        assert s[|s| - |suffix|..] == s'[|s'| - |t'|..] + [s[|s| - 1]];
      }
    }
  }

  /** The condition of the `if` in setActiveNavLink: a literal suffix match, or
      the link targets `index.html` and the path is `/` or ends in `/`. */
  predicate IsActive(currentPath: string, href: string)
    ensures href != "index.html" ==> (IsActive(currentPath, href) <==> EndsWith(currentPath, href))
    ensures href == "index.html" ==>
              (IsActive(currentPath, href) <==> EndsWith(currentPath, href) || EndsWith(currentPath, "/"))
  {
    EndsWith(currentPath, href) ||
    (href == "index.html" && (currentPath == "/" || EndsWith(currentPath, "/")))
  }

  /** A link whose `href` is empty is active on every page. */
  lemma EmptyHrefAlwaysActive(currentPath: string)
    ensures IsActive(currentPath, "")
  {
  }

  /** Matching is literal: no `.html` is stripped or added. The extensionless
      path `/pricing` does not activate `pricing.html`, while `/pricing.html`
      activates both `pricing.html` and `/pricing.html`. */
  lemma MatchingIsLiteral()
    ensures !IsActive("/pricing", "pricing.html")
    ensures IsActive("/pricing.html", "pricing.html")
    ensures IsActive("/pricing.html", "/pricing.html")
    ensures IsActive("/", "index.html")
    ensures !IsActive("/pricing.html", "index.html")
  {
  }

  /** The active flag of every link, in document order. */
  function ActiveFlags(currentPath: string, hrefs: seq<string>): (r: seq<bool>)
    ensures |r| == |hrefs|
    ensures forall i :: 0 <= i < |hrefs| ==> r[i] == IsActive(currentPath, hrefs[i])
  {
    if hrefs == [] then []
    else [IsActive(currentPath, hrefs[0])] + ActiveFlags(currentPath, hrefs[1..])
  }

  /** Each link is decided on its own: the flags for two lists of links side by
      side are the two lists' flags side by side. */
  lemma ActiveFlagsIndependent(currentPath: string, h1: seq<string>, h2: seq<string>)
    ensures ActiveFlags(currentPath, h1 + h2) == ActiveFlags(currentPath, h1) + ActiveFlags(currentPath, h2)
  {
  }

  /** The `.nav__link` elements of a page: their `href` attributes and, per
      link, whether it carries the class `nav__link--active`. */
  class NavLinks {
    const hrefs: seq<string>
    const active: array<bool>

    ghost predicate Valid()
      reads this
    {
      active.Length == |hrefs|
    }

    /** The links as the page's markup has them, with whatever active classes
        the markup carries. */
    constructor (hrefs: seq<string>, markedActive: seq<bool>)
      requires |markedActive| == |hrefs|
      ensures Valid() && fresh(active)
      ensures this.hrefs == hrefs && active[..] == markedActive
    {
      this.hrefs := hrefs;
      active := new bool[|hrefs|](i requires 0 <= i < |hrefs| reads {} => markedActive[i]);
    }

    /** setActiveNavLink: add or remove the active class on every link. The new
        flags are a function of the path and the hrefs alone, so neither the
        previous flags nor a second run change them. */
    method SetActiveNavLink(currentPath: string)
      requires Valid()
      modifies active
      ensures Valid()
      ensures active[..] == ActiveFlags(currentPath, hrefs)
    {
      for i := 0 to active.Length
        invariant forall k :: 0 <= k < i ==> active[k] == IsActive(currentPath, hrefs[k])
      {
        var href := hrefs[i];
        if EndsWith(currentPath, href) ||
           (href == "index.html" && (currentPath == "/" || EndsWith(currentPath, "/"))) {
          active[i] := true;
        } else {
          active[i] := false;
        }
      }
    }
  }
}
