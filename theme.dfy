/**
 * The `useTheme` hook (src/hooks/useTheme.ts): the chosen theme, persisted
 * under "libia-theme" in local storage, resolved against the system
 * preference, and mirrored as the `dark` class of the document root.
 * The hook's effect re-runs whenever the theme changes; here each operation
 * performs the state update together with that effect.
 */
module Theme {

  const StorageKey: string := "libia-theme"

  /**
   * The stored theme. The source casts whatever string local storage holds;
   * a string other than the three names is kept as `Unknown`.
   */
  datatype Theme = Light | Dark | System | Unknown(name: string)

  predicate WellFormed(t: Theme) {
    t.Unknown? ==> t.name !in {"", "light", "dark", "system"}
  }

  /** The string written to storage. */
  function Name(t: Theme): string {
    match t
    case Light => "light"
    case Dark => "dark"
    case System => "system"
    case Unknown(n) => n
  }

  /** `localStorage.getItem(key) || 'system'`, read as a theme. */
  function Saved(storage: map<string, string>): (t: Theme)
    ensures WellFormed(t)
    ensures StorageKey !in storage ==> t == System
    ensures StorageKey in storage && storage[StorageKey] in {"", "system"} ==> t == System
    ensures StorageKey in storage && storage[StorageKey] != "" ==> Name(t) == storage[StorageKey]
  {
    if StorageKey !in storage then System
    else
      var s := storage[StorageKey];
      if s == "" || s == "system" then System
      else if s == "light" then Light
      else if s == "dark" then Dark
      else Unknown(s)
  }

  /** Persisting a theme and reading it back gives the same theme. */
  lemma SavedName(storage: map<string, string>, t: Theme)
    requires WellFormed(t)
    ensures Saved(storage[StorageKey := Name(t)]) == t
  {
  }

  /** `getResolvedTheme`: `system` follows the preference; any other value is used as is. */
  function Resolve(t: Theme, prefersDark: bool): (r: Theme)
    ensures r != System
    ensures t != System ==> r == t
    ensures t == System ==> r == (if prefersDark then Dark else Light)
  {
    if t == System then (if prefersDark then Dark else Light) else t
  }

  /** The theme `toggleTheme` sets: light from anything but light, which gives dark. */
  function Toggled(resolved: Theme): (t: Theme)
    ensures t != System && t != resolved
    ensures t == Dark <==> resolved == Light
  {
    if resolved == Light then Dark else Light
  }

  /** Toggling twice from a light or dark page returns to it. */
  lemma ToggleTwice(resolved: Theme, prefersDark: bool)
    requires resolved == Light || resolved == Dark
    ensures Toggled(Resolve(Toggled(resolved), prefersDark)) == resolved
  {
  }

  class ThemeStore {
    var theme: Theme
    var resolved: Theme
    /** Whether the document root carries the `dark` class. */
    var rootDark: bool
    /** The current `(prefers-color-scheme: dark)` answer. */
    var prefersDark: bool
    var storage: map<string, string>

    /**
     * After every effect: the resolved theme follows the chosen one, the root
     * class follows the resolved theme, and a reload would restore the theme.
     */
    predicate Valid()
      reads this
    {
      && WellFormed(theme)
      && resolved == Resolve(theme, prefersDark)
      && rootDark == (resolved == Dark)
      && Saved(storage) == theme
    }

    /** Mounting: the saved theme (or `system`), then the first effect run. */
    constructor (storage: map<string, string>, prefersDark: bool)
      ensures Valid()
      ensures theme == Saved(storage) && this.storage == storage && this.prefersDark == prefersDark
    {
      theme := Saved(storage);
      this.storage := storage;
      this.prefersDark := prefersDark;
      var r := Resolve(Saved(storage), prefersDark);
      resolved := r;
      rootDark := r == Dark;
    }

    /** The effect body `applyTheme(theme)`. */
    method ApplyTheme()
      modifies this
      ensures resolved == Resolve(theme, prefersDark) && rootDark == (resolved == Dark)
      ensures theme == old(theme) && prefersDark == old(prefersDark) && storage == old(storage)
    {
      resolved := Resolve(theme, prefersDark);
      rootDark := resolved == Dark;
    }

    /** `setTheme`: new state, written to storage, then the effect re-runs. */
    method SetTheme(t: Theme)
      requires Valid() && WellFormed(t)
      modifies this
      ensures Valid()
      ensures theme == t && prefersDark == old(prefersDark)
      ensures storage == old(storage)[StorageKey := Name(t)]
    {
      theme := t;
      storage := storage[StorageKey := Name(t)];
      SavedName(old(storage), t);
      ApplyTheme();
    }

    /** `toggleTheme`: flips between light and dark from the resolved theme. */
    method ToggleTheme()
      requires Valid()
      modifies this
      ensures Valid()
      ensures theme == Toggled(old(resolved)) && theme != System
      ensures resolved == theme
      ensures storage == old(storage)[StorageKey := Name(theme)]
    {
      SetTheme(Toggled(resolved));
    }

    /** The media-query listener: only a `system` theme follows the new preference. */
    method SystemPreferenceChanged(matches: bool)
      requires Valid()
      modifies this
      ensures Valid()
      ensures prefersDark == matches && theme == old(theme) && storage == old(storage)
      ensures old(theme) != System ==> resolved == old(resolved) && rootDark == old(rootDark)
      ensures old(theme) == System ==> rootDark == matches
    {
      prefersDark := matches;
      if theme == System {
        resolved := if matches then Dark else Light;
        rootDark := matches;
      }
    }
  }
}
