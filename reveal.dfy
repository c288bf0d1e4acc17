/**
 * The one-shot entry animation: the inline styles it writes, the entries
 * the visibility observer reports, and the per-element phase
 * pending → revealed.
 */
module Reveal {

  /** An element of the page, by identity. */
  type Element = nat

  /** The three inline style properties the animation touches. */
  datatype Style = Style(opacity: string, transform: string, transition: string)

  const Unstyled := Style("", "", "")

  /** The style `initAnimations` gives a matched element: transparent, 20px lower, with a transition. */
  function Hide(st: Style): (r: Style)
    ensures r.opacity == "0" && r.transform == "translateY(20px)"
    ensures r.transition == "opacity 0.6s ease, transform 0.6s ease"
    ensures PhaseOf(r, true) == Pending && PhaseOf(r, false) == Untouched
  {
    st.(opacity := "0", transform := "translateY(20px)", transition := "opacity 0.6s ease, transform 0.6s ease")
  }

  /** The style the observer callback gives an intersecting element: opaque, in place. */
  function Show(st: Style): (r: Style)
    ensures r.opacity == "1" && r.transform == "translateY(0)"
    ensures r.transition == st.transition
    ensures PhaseOf(r, false) == Revealed
  {
    st.(opacity := "1", transform := "translateY(0)")
  }

  /** One entry of an observer callback. */
  datatype Entry = Entry(target: Element, isIntersecting: bool)

  /** The elements that a batch of entries reports as intersecting. */
  function IntersectingTargets(entries: seq<Entry>): set<Element>
  {
    set k | 0 <= k < |entries| && entries[k].isIntersecting :: entries[k].target
  }

  /** Adding one entry to a batch adds its target exactly when it intersects. */
  lemma IntersectingTargetsSnoc(entries: seq<Entry>, e: Entry)
    ensures IntersectingTargets(entries + [e]) ==
      IntersectingTargets(entries) + (if e.isIntersecting then {e.target} else {})
  {
    var all := entries + [e];
    forall x | x in IntersectingTargets(all)
      ensures x in IntersectingTargets(entries) + (if e.isIntersecting then {e.target} else {})
    {
      var k :| 0 <= k < |all| && all[k].isIntersecting && all[k].target == x;
      if k < |entries| {
        assert entries[k] == all[k];
      }
    }
    forall x | x in IntersectingTargets(entries)
      ensures x in IntersectingTargets(all)
    {
      var k :| 0 <= k < |entries| && entries[k].isIntersecting && entries[k].target == x;
      assert all[k] == entries[k];
    }
    if e.isIntersecting {
      assert all[|entries|] == e;
    }
  }

  /**
   * Where an element stands: observed and waiting to intersect (`Pending`),
   * shown and no longer observed (`Revealed`), or never animated.
   */
  datatype Phase = Untouched | Pending | Revealed

  function PhaseOf(st: Style, observed: bool): (p: Phase)
    ensures p == Pending <==> observed
    ensures p == Revealed <==> !observed && st.opacity == "1" && st.transform == "translateY(0)"
  {
    if observed then Pending
    else if st.opacity == "1" && st.transform == "translateY(0)" then Revealed
    else Untouched
  }
}
