/** Scroll-triggered reveal: `initScrollReveal` in assets/js/main.js.
    An IntersectionObserver watches every `[data-reveal]` element; its callback
    gives each intersecting element the class `revealed` and stops watching it.
    The observer is abstracted to the set of watched elements; whether an entry
    intersects (the browser's geometry) is an input. */
module ScrollReveal {

  /** The identity of a DOM element. */
  type ElementId = nat

  /** An IntersectionObserverEntry: its target and `isIntersecting`. */
  datatype Entry = Entry(target: ElementId, isIntersecting: bool)

  predicate NoDuplicates(s: seq<ElementId>) {
    forall i, j :: 0 <= i < j < |s| ==> s[i] != s[j]
  }

  function Elements(s: seq<ElementId>): set<ElementId> {
    set x | x in s
  }

  /** The targets of the intersecting entries of a batch. */
  function Intersecting(entries: seq<Entry>): (r: set<ElementId>)
    ensures forall id :: id in r <==>
              exists i :: 0 <= i < |entries| && entries[i].target == id && entries[i].isIntersecting
  {
    if entries == [] then {}
    else
      var init, last := entries[..|entries| - 1], entries[|entries| - 1];
      assert forall i :: 0 <= i < |init| ==> init[i] == entries[i];
      Intersecting(init) + (if last.isIntersecting then {last.target} else {})
  }

  /** The elements a batch turns from pending to revealed, in the order the
      callback reaches them, given the elements already revealed. */
  function NewlyRevealed(revealed: set<ElementId>, entries: seq<Entry>): (r: seq<ElementId>)
    ensures NoDuplicates(r)
    ensures Elements(r) == Intersecting(entries) - revealed
  {
    if entries == [] then []
    else
      var init, last := entries[..|entries| - 1], entries[|entries| - 1];
      var before := NewlyRevealed(revealed, init);
      if last.isIntersecting && last.target !in revealed + Intersecting(init) then
        assert last.target !in Elements(before);
        assert Elements(before + [last.target]) == Elements(before) + {last.target};
        before + [last.target]
      else before
  }

  /** A batch without intersecting entries reveals nothing and unobserves nothing. */
  lemma NonIntersectingBatchIsNoOp(revealed: set<ElementId>, entries: seq<Entry>)
    requires forall i :: 0 <= i < |entries| ==> !entries[i].isIntersecting
    ensures Intersecting(entries) == {}
    ensures NewlyRevealed(revealed, entries) == []
  {
  }

  /** Entries whose targets are all revealed already change nothing: such an
      element is no longer observed, and no element turns revealed a second time. */
  lemma RevealedTargetsAreNoOp(observed: set<ElementId>, revealed: set<ElementId>, entries: seq<Entry>)
    requires observed !! revealed
    requires forall i :: 0 <= i < |entries| ==> entries[i].target in revealed
    ensures revealed + Intersecting(entries) == revealed
    ensures observed - Intersecting(entries) == observed
    ensures NewlyRevealed(revealed, entries) == []
  {
  }

  lemma {:induction false} NoDuplicatesAppend(s: seq<ElementId>, t: seq<ElementId>)
    requires NoDuplicates(s) && NoDuplicates(t) && Elements(s) !! Elements(t)
    ensures NoDuplicates(s + t) && Elements(s + t) == Elements(s) + Elements(t)
  {
    forall i, j | 0 <= i < j < |s + t| ensures (s + t)[i] != (s + t)[j] {
      if i < |s| && |s| <= j {
        assert (s + t)[i] in Elements(s);
        assert (s + t)[j] == t[j - |s|] && t[j - |s|] in Elements(t);
      }
    }
    forall x ensures x in Elements(s + t) <==> x in Elements(s) + Elements(t) {
      if x in Elements(s + t) {
        var k :| 0 <= k < |s + t| && (s + t)[k] == x;
        if k >= |s| { assert t[k - |s|] == x; }
      }
    }
  }

  /** The observer of one page, with what its callback has done so far. */
  class RevealObserver {
    /** `[data-reveal]` elements were found, so an observer exists. */
    const hasObserver: bool
    /** The targets the observer still watches. */
    var observed: set<ElementId>
    /** The elements that carry the class `revealed`. */
    var revealed: set<ElementId>
    /** The order in which elements turned from pending to revealed. */
    ghost var RevealOrder: seq<ElementId>

    /** No element is both watched and revealed, and every revealed element was
        revealed exactly once. */
    ghost predicate Valid()
      reads this
    {
      observed !! revealed &&
      NoDuplicates(RevealOrder) && Elements(RevealOrder) == revealed &&
      (!hasObserver ==> observed == {})
    }

    /** initScrollReveal: observe every `[data-reveal]` element, none yet revealed. */
    constructor (revealElements: seq<ElementId>)
      ensures Valid()
      ensures hasObserver == (|revealElements| > 0)
      ensures observed == Elements(revealElements) && revealed == {} && RevealOrder == []
    {
      hasObserver := |revealElements| > 0;
      revealed := {};
      RevealOrder := [];
      observed := {};
      new;
      for i := 0 to |revealElements|
        invariant observed == Elements(revealElements[..i])
        invariant revealed == {} && RevealOrder == []
      {
        assert revealElements[..i + 1] == revealElements[..i] + [revealElements[i]];
        observed := observed + {revealElements[i]};
      }
      assert revealElements[..|revealElements|] == revealElements;
    }

    /** The observer's callback on one batch of entries: every intersecting
        target is revealed and unobserved; `revealed` only grows. */
    method OnEntries(entries: seq<Entry>)
      requires Valid() && hasObserver
      modifies this
      ensures Valid()
      ensures revealed == old(revealed) + Intersecting(entries)
      ensures observed == old(observed) - Intersecting(entries)
      ensures RevealOrder == old(RevealOrder) + NewlyRevealed(old(revealed), entries)
    {
      for i := 0 to |entries|
        invariant Valid()
        invariant revealed == old(revealed) + Intersecting(entries[..i])
        invariant observed == old(observed) - Intersecting(entries[..i])
        invariant RevealOrder == old(RevealOrder) + NewlyRevealed(old(revealed), entries[..i])
      {
        var entry := entries[i];
        assert entries[..i + 1][..i] == entries[..i];
        if entry.isIntersecting {
          if entry.target !in revealed {
            NoDuplicatesAppend(RevealOrder, [entry.target]);
            RevealOrder := RevealOrder + [entry.target];
          }
          revealed := revealed + {entry.target};
          observed := observed - {entry.target};
        }
      }
      assert entries[..|entries|] == entries;
    }
  }

  /** Three revealable elements, none visible at first, then crossing the
      threshold one and two at a time: each is revealed once, in crossing order. */
  lemma ThreeElementsScenario()
    ensures var batches := [[Entry(1, false), Entry(2, false), Entry(3, false)],
                            [Entry(2, true)],
                            [Entry(1, true), Entry(3, true)]];
            Intersecting(batches[0]) == {} && NewlyRevealed({}, batches[0]) == [] &&
            Intersecting(batches[1]) == {2} && NewlyRevealed({}, batches[1]) == [2] &&
            Intersecting(batches[2]) == {1, 3} && NewlyRevealed({2}, batches[2]) == [1, 3]
  {
    var hidden := [Entry(1, false), Entry(2, false), Entry(3, false)];
    NonIntersectingBatchIsNoOp({}, hidden);
    var second := [Entry(2, true)];
    assert second[..0] == [];
    var third := [Entry(1, true), Entry(3, true)];
    assert third[..1] == [Entry(1, true)] && third[..1][..0] == [];
    assert Intersecting(third[..1]) == {1};
    assert NewlyRevealed({2}, third[..1]) == [1];
  }

  /** A scenario for `ThreeElementsScenario`: the same three batches delivered
      to an observer object, which reveals the elements in the order [2, 1, 3]
      and ends with nothing observed. */
  method ThreeElementsOnObserver()
  {
    ThreeElementsScenario();
    var page := new RevealObserver([1, 2, 3]);
    assert page.observed == {1, 2, 3} by {
      assert Elements([1, 2, 3]) == {1, 2, 3};
    }
    page.OnEntries([Entry(1, false), Entry(2, false), Entry(3, false)]);
    assert page.revealed == {} && page.RevealOrder == [];
    page.OnEntries([Entry(2, true)]);
    assert page.revealed == {2} && page.RevealOrder == [2];
    page.OnEntries([Entry(1, true), Entry(3, true)]);
    assert page.RevealOrder == [2, 1, 3];
    assert page.revealed == {1, 2, 3} && page.observed == {};
  }
}
