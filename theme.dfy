/** The light/dark preference: how it is resolved at start-up, how it is
    written to storage and to the document's class list. */
module Theme {
  import opened Wrappers

  /** The storage key the preference is kept under. */
  const ThemeKey: string := "theme"

  /** The class put on the document element in dark mode. */
  const DarkClass: string := "dark"

  /** `localStorage.getItem(key)`: the stored string, or None (null). */
  function Lookup(storage: map<string, string>, key: string): Option<string> {
    if key in storage then Some(storage[key]) else None
  }

  /** The string stored for a preference. */
  function ThemeName(isDark: bool): (s: string) {
    if isDark then "dark" else "light"
  }

  /** JavaScript truthiness of a `string | null`: present and non-empty. */
  predicate Truthy(stored: Option<string>) {
    stored.Some? && stored.value != ""
  }

  /** The initial value of `isDark`: light when there is no window; otherwise
      a truthy stored value decides (dark iff it is "dark"); otherwise the
      "prefers dark" media signal decides. */
  function InitialIsDark(hasWindow: bool, stored: Option<string>, prefersDark: bool): (dark: bool)
    ensures dark <==> hasWindow && (stored == Some("dark") || (!Truthy(stored) && prefersDark))
  {
    if !hasWindow then false
    else if Truthy(stored) then stored.value == "dark"
    else prefersDark
  }

  /** Storage after `setItem('theme', ...)`: the theme key holds the name of
      the preference and every other key is untouched. */
  function Persist(storage: map<string, string>, isDark: bool): (s: map<string, string>)
    ensures Lookup(s, ThemeKey) == Some(ThemeName(isDark))
    ensures forall k :: k != ThemeKey ==> Lookup(s, k) == Lookup(storage, k)
  {
    storage[ThemeKey := ThemeName(isDark)]
  }

  /** The class list after `classList.toggle('dark', isDark)`: "dark" is
      present exactly when `isDark` holds, and no other class changes. */
  function ApplyClass(classes: set<string>, isDark: bool): (c: set<string>)
    ensures DarkClass in c <==> isDark
    ensures forall x :: x != DarkClass ==> (x in c <==> x in classes)
  {
    if isDark then classes + {DarkClass} else classes - {DarkClass}
  }

  /** Without a window the page starts light, whatever is stored or signalled. */
  lemma NoWindowIsLight(stored: Option<string>, prefersDark: bool)
    ensures !InitialIsDark(false, stored, prefersDark)
  {
  }

  /** A non-empty stored value decides alone: dark iff it is exactly "dark";
      any other non-empty string gives light without consulting the media. */
  lemma StoredValueDecides(s: string, prefersDark: bool)
    requires s != ""
    ensures InitialIsDark(true, Some(s), prefersDark) <==> s == "dark"
  {
  }

  /** With nothing stored, or an empty string stored, the media signal decides. */
  lemma NoStoredValueUsesMedia(stored: Option<string>, prefersDark: bool)
    requires stored.None? || stored.value == ""
    ensures InitialIsDark(true, stored, prefersDark) == prefersDark
  {
  }

  /** After the preference is persisted, resolving it again on reload gives
      the same preference, whatever else storage holds and whatever the media
      signal says. */
  lemma ReloadRestoresTheme(storage: map<string, string>, isDark: bool, prefersDark: bool)
    ensures InitialIsDark(true, Lookup(Persist(storage, isDark), ThemeKey), prefersDark) == isDark
  {
  }
}
