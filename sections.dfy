/** The fixed, ordered list of page sections that the scroll-spy walks and the
    navigation bar renders, and the rule that highlights the active entry. */
module PageSections {

  /** The section ids in the order the scroll handler tries them. */
  const Sections: seq<string> :=
    ["inicio", "quienes-somos", "que-hacemos", "a-quien-apoyamos", "transparencia", "contacto"]

  /** One entry of the navigation bar. */
  datatype NavItem = NavItem(id: string, text: string)

  /** The navigation entries, each pointing at the section with the same id. */
  const NavItems: seq<NavItem> := [
    NavItem("inicio", "Inicio"),
    NavItem("quienes-somos", "Quiénes Somos"),
    NavItem("que-hacemos", "Qué Hacemos"),
    NavItem("a-quien-apoyamos", "A Quién Apoyamos"),
    NavItem("transparencia", "Transparencia"),
    NavItem("contacto", "Contacto")
  ]

  predicate Distinct(ids: seq<string>) {
    forall i, j :: 0 <= i < j < |ids| ==> ids[i] != ids[j]
  }

  /** The navigation bar lists exactly the sections the scroll-spy tracks, in
      the same order, no id twice, and no id is the empty string. */
  lemma NavItemsMatchSections()
    ensures |NavItems| == |Sections|
    ensures forall i :: 0 <= i < |NavItems| ==> NavItems[i].id == Sections[i]
    ensures Distinct(Sections)
    ensures forall i :: 0 <= i < |Sections| ==> Sections[i] != ""
  {
  }

  /** Which navigation entries are drawn as highlighted for a given active
      section: entry i is highlighted when its id equals the active one. An
      id outside the section list highlights nothing. */
  function Highlighted(active: string): (h: seq<bool>)
    ensures |h| == |Sections|
    ensures active !in Sections ==> forall i :: 0 <= i < |h| ==> !h[i]
  {
    NavItemsMatchSections();
    seq(|NavItems|, i requires 0 <= i < |NavItems| => NavItems[i].id == active)
  }

  /** When the active section is one of the listed ids, exactly one entry of
      the navigation bar is highlighted, and it is the entry for that id. */
  lemma ExactlyOneHighlighted(active: string)
    requires active in Sections
    ensures exists i :: 0 <= i < |NavItems| && Highlighted(active)[i] && NavItems[i].id == active
    ensures forall i, j ::
              0 <= i < |NavItems| && 0 <= j < |NavItems| && Highlighted(active)[i] && Highlighted(active)[j]
              ==> i == j
  {
    NavItemsMatchSections();
    var h := Highlighted(active);
    var k :| 0 <= k < |Sections| && Sections[k] == active;
    assert h[k] && NavItems[k].id == active;
  }
}
