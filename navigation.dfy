/** The target of a click on a navigation entry: scroll so that the section's
    top lands just below the fixed header. */
module Navigation {
  import opened Wrappers
  import opened PageSections
  import opened ScrollSpy

  /** Height of the fixed header, subtracted from the target position. */
  const HeaderOffset: int := 80

  /** The `top` passed to `window.scrollTo` for a section, or None when no
      element has that id (no scroll is requested). */
  function ScrollTarget(layout: Layout, id: string, pageYOffset: int): (r: Option<int>)
    ensures r.Some? <==> id in layout
  {
    if id in layout then Some(layout[id].top + pageYOffset - HeaderOffset) else None
  }

  /** The boxes after the page scrolls down by `dy`: every element moves up by
      `dy` in viewport coordinates, and no element appears or disappears. */
  function Scrolled(layout: Layout, dy: int): (l: Layout)
    ensures l.Keys == layout.Keys
    ensures forall id :: id in l ==> l[id].bottom - l[id].top == layout[id].bottom - layout[id].top
  {
    map id | id in layout :: Rect(layout[id].top - dy, layout[id].bottom - dy)
  }

  /** Scrolling by `a` and then by `b` is scrolling by `a + b`. */
  lemma ScrolledComposes(layout: Layout, a: int, b: int)
    ensures Scrolled(Scrolled(layout, a), b) == Scrolled(layout, a + b)
  {
    var l1, l2 := Scrolled(Scrolled(layout, a), b), Scrolled(layout, a + b);
    assert l1.Keys == l2.Keys;
    forall id | id in l1 ensures l1[id] == l2[id] {
      assert Scrolled(layout, a)[id].top == layout[id].top - a;
    }
  }

  /** The target is a document position: computing it after the page has
      scrolled by `dy` (boxes moved up by `dy`, offset grown by `dy`) gives the
      same target. */
  lemma TargetIndependentOfScroll(layout: Layout, id: string, pageYOffset: int, dy: int)
    ensures ScrollTarget(Scrolled(layout, dy), id, pageYOffset + dy) == ScrollTarget(layout, id, pageYOffset)
  {
    if id in layout {
      assert Scrolled(layout, dy)[id].top == layout[id].top - dy;
    }
  }

  /** Scrolling to the target puts the section's top exactly at the bottom edge
      of the header. */
  lemma TargetAlignsWithHeader(layout: Layout, id: string, pageYOffset: int)
    requires id in layout
    ensures ScrollTarget(layout, id, pageYOffset).Some?
    ensures Scrolled(layout, ScrollTarget(layout, id, pageYOffset).value - pageYOffset)[id].top
            == HeaderOffset
  {
  }

  /** After navigating to a section at least 20 pixels tall, it straddles the
      activation line; if no earlier section does, the scroll-spy then selects
      the very section that was navigated to. */
  lemma NavigatedSectionBecomesActive(layout: Layout, k: int, pageYOffset: int)
    requires 0 <= k < |Sections| && Sections[k] in layout
    requires layout[Sections[k]].bottom - layout[Sections[k]].top >= ActivationLine - HeaderOffset
    requires forall j :: 0 <= j < k ==>
               !InView(Scrolled(layout, layout[Sections[k]].top - HeaderOffset), Sections[j])
    ensures ScrollTarget(layout, Sections[k], pageYOffset).Some?
    ensures InView(Scrolled(layout, ScrollTarget(layout, Sections[k], pageYOffset).value - pageYOffset),
                   Sections[k])
    ensures FindInView(Sections, Scrolled(layout, ScrollTarget(layout, Sections[k], pageYOffset).value - pageYOffset))
            == Some(Sections[k])
  {
    var after := Scrolled(layout, layout[Sections[k]].top - HeaderOffset);
    assert after[Sections[k]].top == HeaderOffset;
    FindInViewFirst(Sections, after, k);
  }
}
