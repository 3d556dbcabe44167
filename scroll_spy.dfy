/** The scroll-spy: the first section, in list order, whose element straddles
    the activation line 100 pixels below the top of the viewport. */
module ScrollSpy {
  import opened Wrappers
  import opened PageSections

  /** Distance of the activation line from the top of the viewport. */
  const ActivationLine: int := 100

  /** An element's bounding box, in viewport coordinates. */
  datatype Rect = Rect(top: int, bottom: int)

  /** What the document shows: the bounding box of each element found by id.
      An id that is not a key has no element on the page. */
  type Layout = map<string, Rect>

  /** The predicate handed to `find`: the element exists and its box reaches
      the activation line from above and below, both bounds inclusive. */
  predicate InView(layout: Layout, id: string)
    ensures InView(layout, id) ==> id in layout && layout[id].top <= layout[id].bottom
  {
    id in layout && layout[id].top <= ActivationLine && layout[id].bottom >= ActivationLine
  }

  /** `ids.find(InView)`: the first id in order whose element is in view. */
  function FindInView(ids: seq<string>, layout: Layout): (r: Option<string>)
    ensures r.Some? ==> r.value in ids && InView(layout, r.value)
  {
    if ids == [] then None
    else if InView(layout, ids[0]) then Some(ids[0])
    else FindInView(ids[1..], layout)
  }

  /** An id that is in view and preceded only by ids that are not is the one
      found; in particular an earlier match wins over any later one. */
  lemma {:induction false} FindInViewFirst(ids: seq<string>, layout: Layout, k: int)
    requires 0 <= k < |ids| && InView(layout, ids[k])
    requires forall j :: 0 <= j < k ==> !InView(layout, ids[j])
    ensures FindInView(ids, layout) == Some(ids[k])
  {
    if k > 0 {
      assert !InView(layout, ids[0]);
      FindInViewFirst(ids[1..], layout, k - 1);
    }
  }

  /** Whatever is found sits at some position of the list, is in view there,
      and every id before that position is not in view. */
  lemma {:induction false} FindInViewEarliest(ids: seq<string>, layout: Layout)
    requires FindInView(ids, layout).Some?
    ensures exists k :: 0 <= k < |ids| && ids[k] == FindInView(ids, layout).value &&
                        InView(layout, ids[k]) &&
                        forall j :: 0 <= j < k ==> !InView(layout, ids[j])
  {
    var x := FindInView(ids, layout).value;
    if InView(layout, ids[0]) {
      assert ids[0] == x;
    } else {
      FindInViewEarliest(ids[1..], layout);
      var k :| 0 <= k < |ids[1..]| && ids[1..][k] == x && InView(layout, ids[1..][k]) &&
               forall j :: 0 <= j < k ==> !InView(layout, ids[1..][j]);
      assert ids[k + 1] == x;
      assert forall j :: 0 <= j < k + 1 ==> !InView(layout, ids[j]) by {
        forall j | 0 <= j < k + 1 ensures !InView(layout, ids[j]) {
          if j > 0 { assert ids[j] == ids[1..][j - 1]; }
        }
      }
    }
  }

  /** Nothing is found exactly when no id in the list is in view. */
  lemma {:induction false} FindInViewNone(ids: seq<string>, layout: Layout)
    ensures FindInView(ids, layout) == None <==>
            forall i :: 0 <= i < |ids| ==> !InView(layout, ids[i])
  {
    if ids != [] && !InView(layout, ids[0]) {
      FindInViewNone(ids[1..], layout);
      assert forall i :: 1 <= i < |ids| ==> ids[i] == ids[1..][i - 1];
    }
  }

  /** A missing element never matches, so a later section whose element is in
      view is still selected past a missing one. */
  lemma MissingElementSkipped(layout: Layout)
    requires "inicio" !in layout
    requires InView(layout, "quienes-somos")
    ensures FindInView(Sections, layout) == Some("quienes-somos")
  {
  }

  /** A box from 50 to 400 for "que-hacemos", with the two sections before it
      scrolled past, selects "que-hacemos". */
  lemma MiddleSectionSelected()
    ensures FindInView(Sections, map["inicio" := Rect(-900, -500), "quienes-somos" := Rect(-500, 50),
                                     "que-hacemos" := Rect(50, 400), "a-quien-apoyamos" := Rect(400, 900)])
            == Some("que-hacemos")
  {
  }

  /** Two sections that touch exactly at the activation line both match (both
      bounds are inclusive); the earlier one in the list is selected. */
  lemma BoundaryTieGoesToEarlier()
    ensures FindInView(Sections, map["quienes-somos" := Rect(0, 100), "que-hacemos" := Rect(100, 600)])
            == Some("quienes-somos")
  {
  }
}
