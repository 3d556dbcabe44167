/** The state of the page component and the handlers that change it. */
module AppComponent {
  import opened Wrappers
  import opened PageSections
  import opened ScrollSpy
  import opened Theme
  import opened Navigation

  class App {
    /** Whether the mobile navigation overlay is shown. */
    var isMenuOpen: bool
    /** The id of the section highlighted in the navigation bar. */
    var activeSection: string
    /** The light/dark preference. */
    var isDark: bool
    /** The browser's local storage. */
    var storage: map<string, string>
    /** The class list of the document element. */
    var classes: set<string>

    /** The active section is always one of the listed sections. */
    ghost predicate Valid()
      reads this
    {
      activeSection in Sections
    }

    /** Storage and the document's class list agree with the preference. */
    ghost predicate ThemeApplied()
      reads this
    {
      Lookup(storage, ThemeKey) == Some(ThemeName(isDark)) && (DarkClass in classes <==> isDark)
    }

    /** The first render: menu closed, "inicio" active, and the preference
        resolved from the window, storage and the media signal. */
    constructor (hasWindow: bool, storage0: map<string, string>, classes0: set<string>, prefersDark: bool)
      ensures Valid()
      ensures !isMenuOpen && activeSection == "inicio"
      ensures isDark == InitialIsDark(hasWindow, Lookup(storage0, ThemeKey), prefersDark)
      ensures storage == storage0 && classes == classes0
    {
      isMenuOpen := false;
      activeSection := "inicio";
      var stored := if hasWindow then Lookup(storage0, ThemeKey) else None;
      isDark := InitialIsDark(hasWindow, stored, prefersDark);
      storage := storage0;
      classes := classes0;
    }

    /** The theme effect: sets the "dark" class iff dark and stores the
        preference's name; a reload then resolves the same preference. */
    method ApplyTheme()
      modifies this`storage, this`classes
      ensures storage == Persist(old(storage), isDark)
      ensures classes == ApplyClass(old(classes), isDark)
      ensures ThemeApplied()
      ensures forall m :: InitialIsDark(true, Lookup(storage, ThemeKey), m) == isDark
    {
      classes := ApplyClass(classes, isDark);
      storage := Persist(storage, isDark);
    }

    /** The theme button flips the preference. */
    method ToggleTheme()
      modifies this`isDark
      ensures isDark == !old(isDark)
    {
      isDark := !isDark;
    }

    /** The theme button followed by the effect it triggers. */
    method ToggleAndApplyTheme()
      modifies this`isDark, this`storage, this`classes
      ensures isDark == !old(isDark)
      ensures ThemeApplied()
      ensures storage == Persist(old(storage), isDark)
      ensures classes == ApplyClass(old(classes), isDark)
    {
      ToggleTheme();
      ApplyTheme();
    }

    /** The menu button opens a closed menu and closes an open one. */
    method ToggleMenu()
      modifies this`isMenuOpen
      ensures isMenuOpen == !old(isMenuOpen)
    {
      isMenuOpen := !isMenuOpen;
    }

    /** The scroll handler: the first section in view becomes active; when
        none is in view the active section is kept. */
    method HandleScroll(layout: Layout)
      requires Valid()
      modifies this`activeSection
      ensures Valid()
      ensures FindInView(Sections, layout).Some? ==> activeSection == FindInView(Sections, layout).value
      ensures FindInView(Sections, layout).None? ==> activeSection == old(activeSection)
    {
      var current := FindInView(Sections, layout);
      NavItemsMatchSections();
      if current.Some? && current.value != "" {
        activeSection := current.value;
      }
    }

    /** A navigation click: requests a scroll to the section's target when its
        element exists, none otherwise, and closes the menu either way. */
    method ScrollToSection(sectionId: string, layout: Layout, pageYOffset: int) returns (target: Option<int>)
      modifies this`isMenuOpen
      ensures !isMenuOpen
      ensures target == ScrollTarget(layout, sectionId, pageYOffset)
      ensures target.Some? ==> target.value == layout[sectionId].top + pageYOffset - HeaderOffset
    {
      target := None;
      if sectionId in layout {
        var elementPosition := layout[sectionId].top;
        target := Some(elementPosition + pageYOffset - HeaderOffset);
      }
      isMenuOpen := false;
    }
  }

  /** Pressing the theme button twice restores the original preference, and
      storage and class list again show it. */
  method ToggleThemeTwice(app: App)
    modifies app`isDark, app`storage, app`classes
    ensures app.isDark == old(app.isDark)
    ensures app.ThemeApplied()
    ensures app.storage == Persist(old(app.storage), old(app.isDark))
    ensures app.classes == ApplyClass(old(app.classes), old(app.isDark))
  {
    app.ToggleAndApplyTheme();
    app.ToggleAndApplyTheme();
  }

  /** Over any sequence of scroll events the active section stays one of the
      listed ids, and nothing but the active section changes. */
  method ActiveSectionStaysListed(app: App, layouts: seq<Layout>)
    requires app.Valid()
    modifies app`activeSection
    ensures app.Valid()
  {
    for i := 0 to |layouts|
      invariant app.Valid()
    {
      app.HandleScroll(layouts[i]);
    }
  }
}
