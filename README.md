# Fundación Luz de Vida site: scroll-spy, theme and section navigation

The site is a single-page brochure whose only behaviour sits at the top of the
`App` component: a scroll-spy that picks the section in view and highlights its
navigation entry, a light/dark preference that is resolved at start-up, stored
and applied to the document, and a navigation click that computes a scroll
target below the fixed header and closes the mobile menu.

The model has one module per concern:

- `Wrappers` — `Option`, for an element that may be missing, a storage key that
  may be absent, a `find` that may match nothing.
- `PageSections` — the six section ids in order, the navigation entries, and
  which entry is highlighted for the active section.
- `ScrollSpy` — bounding boxes (`Rect`, `Layout`), the `find` predicate
  `InView` (activation line 100, both bounds inclusive, a missing element never
  matches) and `FindInView`, the first match in list order.
- `Theme` — `InitialIsDark` (no window, stored string, media signal),
  `Persist` (the `theme` storage entry), `ApplyClass` (the `dark` class).
- `Navigation` — `ScrollTarget` (`top + pageYOffset - 80`, or no scroll), and
  `Scrolled`, the boxes after the page scrolls by a given amount.
- `AppComponent` — class `App` with the fields `isMenuOpen`, `activeSection`,
  `isDark`, `storage` and `classes`, and methods for the handlers and the theme
  effect. `Valid()` says the active section is one of the six ids.

DOM queries are inputs: a `Layout` map gives each found element's box, the
stored string comes from the `storage` map, the media query is a `bool`, and
the page offset is an `int`. Coordinates are integers.

Three behaviours of the code are worth stating outright:

- A stored theme string decides whenever it is non-empty: dark iff it equals
  `"dark"`, light for any other non-empty string. The media signal is read
  only when nothing, or the empty string, is stored.
- The active section starts as `"inicio"` and is never undefined.
- No exception from `localStorage` is caught, so there is no in-memory
  fallback when storage is blocked.

## Model

| member | source | states |
|---|---|---|
| PageSections.NavItemsMatchSections | src/App.tsx:54-61 | the navigation entries list exactly the scroll-spy's six ids in the same order; the ids are distinct and non-empty |
| PageSections.Highlighted | src/App.tsx:86-90 | there is one highlight flag per listed section, and an active id outside the list highlights no entry |
| PageSections.ExactlyOneHighlighted | src/App.tsx:86-90 | when the active section is a listed id, exactly one navigation entry is highlighted, the one with that id |
| ScrollSpy.InView | src/App.tsx:25-30 | a section is in view only when its element exists, and then its box reaches from at or above the line at 100 to at or below it |
| ScrollSpy.FindInView | src/App.tsx:24-31 | a found id is one of the listed ids and its element exists and straddles the activation line |
| ScrollSpy.FindInViewFirst | src/App.tsx:24-31 | an id in view preceded only by ids not in view is the one found, so an earlier match wins over any later one |
| ScrollSpy.FindInViewEarliest | src/App.tsx:24-31 | the found id sits at a position where it is in view and no earlier id is in view |
| ScrollSpy.FindInViewNone | src/App.tsx:24-31 | nothing is found if and only if no listed id is in view |
| ScrollSpy.MissingElementSkipped | src/App.tsx:25-30 | a section whose element is missing does not match, and a later section in view is still selected |
| ScrollSpy.MiddleSectionSelected | src/App.tsx:23-31 | with "que-hacemos" at top 50 and bottom 400 and earlier sections scrolled past, "que-hacemos" is selected |
| ScrollSpy.BoundaryTieGoesToEarlier | src/App.tsx:28 | two boxes touching the line at 100 both match (inclusive bounds) and the earlier section is selected |
| Theme.InitialIsDark | src/App.tsx:9-14 | the page starts dark exactly when there is a window and either "dark" is stored, or nothing truthy is stored and the media signal prefers dark |
| Theme.NoWindowIsLight | src/App.tsx:10 | without a window the initial preference is light whatever is stored or signalled |
| Theme.StoredValueDecides | src/App.tsx:11-12 | a non-empty stored string alone decides: dark iff it is "dark" |
| Theme.NoStoredValueUsesMedia | src/App.tsx:12-13 | with no stored string or an empty one, the initial preference is the prefers-dark signal |
| Theme.Persist | src/App.tsx:18 | the theme key then holds "dark" or "light" for the preference and no other key changes |
| Theme.ApplyClass | src/App.tsx:17 | the class list holds "dark" iff the preference is dark and no other class changes |
| Theme.ReloadRestoresTheme | src/App.tsx:9-18 | after persisting a preference, start-up resolution yields it again whatever the media signal and the rest of storage |
| Navigation.ScrollTarget | src/App.tsx:40-50 | a scroll target exists exactly when an element with the id exists |
| Navigation.Scrolled | src/App.tsx:43-44 | scrolling the page keeps the same elements and every box's height |
| Navigation.ScrolledComposes | src/App.tsx:43-44 | scrolling by one amount and then another is scrolling by their sum |
| Navigation.TargetIndependentOfScroll | src/App.tsx:43-44 | the target is a document position: computed after any scroll, with the offset grown by the same amount, it is unchanged |
| Navigation.TargetAlignsWithHeader | src/App.tsx:42-44 | scrolling to the target puts the section's top exactly 80 pixels below the viewport top, under the header |
| Navigation.NavigatedSectionBecomesActive | src/App.tsx:39-52 | after scrolling to a section at least 20 pixels tall it straddles the activation line, and the scroll-spy selects it when no earlier section does |
| AppComponent.App.constructor | src/App.tsx:7-14 | the menu starts closed, "inicio" is active, and the preference is the start-up resolution of window, stored value and media signal |
| AppComponent.App.ApplyTheme | src/App.tsx:16-19 | storage and class list are updated to the preference, and a reload resolves the same preference for any media signal |
| AppComponent.App.ToggleTheme | src/App.tsx:100 | the preference is flipped |
| AppComponent.App.ToggleAndApplyTheme | src/App.tsx:100 | a theme click flips the preference and leaves storage and class list showing the new value |
| AppComponent.ToggleThemeTwice | src/App.tsx:100 | two theme clicks restore the original preference, leave storage and class list as one application of it would, and change nothing else |
| AppComponent.App.ToggleMenu | src/App.tsx:108 | the menu button flips whether the menu is open |
| AppComponent.App.HandleScroll | src/App.tsx:22-33 | the first section in view becomes active; with none in view the active section is kept; it stays one of the six ids |
| AppComponent.ActiveSectionStaysListed | src/App.tsx:8-33 | over any sequence of scroll events the active section remains one of the six listed ids, and no other state changes |
| AppComponent.App.ScrollToSection | src/App.tsx:39-52 | the target is top + pageYOffset - 80 when the element exists, there is no scroll request otherwise, and the menu ends closed in both cases |

## Left out

- The page markup, text, images, outbound links and the map embed (src/App.tsx:63-592): presentational decisions only (the logo chosen by `isDark`, icons and labels of the buttons); the highlight rule is modelled by `PageSections.Highlighted`.
- Adding and removing the scroll listener and React's effect scheduling (src/App.tsx:35-36): `HandleScroll` and `ApplyTheme` are methods called on demand; the order in which React runs them is not modelled.
- The smooth-scroll animation of `window.scrollTo`: only the requested target is computed. The browser clamps the target to the scrollable range; `Navigation.NavigatedSectionBecomesActive` assumes the page lands exactly on the target.
- `localStorage`, `matchMedia` and `getBoundingClientRect` as browser APIs: they are the `storage` map, a boolean, and a `Layout` of integer boxes. Fractional pixel coordinates are not modelled.
- Exceptions thrown by a blocked `localStorage`: the code does not handle them, so no fallback is modelled.
- The favicon swap and the React root rendering (src/main.tsx), and the styling configuration (tailwind.config.js): start-up plumbing and configuration with no logic.
