/**
 * The light/dark theme switch. It keeps the current theme, mirrors it into
 * the `dark` class on the document root, and persists each explicit choice
 * under one key of the browser's local storage. On mount, a stored value
 * that is present and non-empty wins over the system colour-scheme
 * preference. Local storage is a map from key to string, the root's class
 * list is the single flag it can hold here, and the preference query is a
 * boolean argument.
 */
module Theme {
  import opened Wrappers

  const ThemeKey: string := "theme"
  const Light: string := "light"
  const Dark: string := "dark"

  /** The two themes the switch itself ever produces. */
  predicate IsTheme(t: string) {
    t == Light || t == Dark
  }

  /** `localStorage.getItem`: the stored string, or nothing. */
  function StoredTheme(storage: map<string, string>): (saved: Option<string>)
    ensures saved.Some? <==> ThemeKey in storage
    ensures saved.Some? ==> saved.value == storage[ThemeKey]
  {
    if ThemeKey in storage then Some(storage[ThemeKey]) else None
  }

  /**
   * The theme chosen on mount: the stored value when it is present and not
   * empty (it is taken as it is, without checking that it names a theme),
   * otherwise dark exactly when the system prefers a dark scheme.
   */
  function InitialTheme(saved: Option<string>, prefersDark: bool): (t: string)
    ensures saved.Some? && saved.value != "" ==> t == saved.value
    ensures saved.None? || saved.value == "" ==> IsTheme(t) && (t == Dark <==> prefersDark)
  {
    var systemPreference := if prefersDark then Dark else Light;
    match saved
    case Some(s) => if s != "" then s else systemPreference
    case None => systemPreference
  }

  /** The theme a click switches to: dark from light, light from anything else. */
  function Toggled(t: string): (r: string)
    ensures IsTheme(r)
    ensures r == Dark <==> t == Light
  {
    if t == Light then Dark else Light
  }

  /** The button's accessible name, which announces the theme a click switches to. */
  function AriaLabel(theme: string): (name: string)
    ensures theme == Light ==> name == "Switch to dark mode"
    ensures theme != Light ==> name == "Switch to light mode"
  {
    "Switch to " + Toggled(theme) + " mode"
  }

  /**
   * Whether the sun icon and the moon icon are shown: exactly one of them
   * for a proper theme, the sun meaning that a click switches to dark, and
   * neither for any other string.
   */
  function IconsShown(theme: string): (icons: (bool, bool))
    ensures IsTheme(theme) ==> icons.0 != icons.1
    ensures !IsTheme(theme) ==> !icons.0 && !icons.1
    ensures icons.0 <==> IsTheme(theme) && Toggled(theme) == Dark
  {
    (theme == Light, theme == Dark)
  }

  /** Toggling twice restores either theme, and toggling always changes it. */
  lemma ToggleInvolutive(t: string)
    requires IsTheme(t)
    ensures Toggled(Toggled(t)) == t
    ensures Toggled(t) != t
  {
  }

  /** A stored string that names no theme shows neither icon until the next click, which switches to light. */
  lemma UnknownStoredTheme(storage: map<string, string>, prefersDark: bool)
    requires ThemeKey in storage && storage[ThemeKey] != "" && !IsTheme(storage[ThemeKey])
    ensures var t := InitialTheme(StoredTheme(storage), prefersDark);
      !IconsShown(t).0 && !IconsShown(t).1 && Toggled(t) == Light
  {
  }

  /** The theme shown after mount is a proper theme exactly when the stored value is absent, empty or a proper theme. */
  lemma MountedThemeValid(storage: map<string, string>, prefersDark: bool)
    ensures IsTheme(InitialTheme(StoredTheme(storage), prefersDark)) <==>
      ThemeKey !in storage || storage[ThemeKey] == "" || IsTheme(storage[ThemeKey])
  {
  }

  /** A persisted choice overrides the system preference on the next load. */
  lemma PersistedChoiceWins(storage: map<string, string>, t: string, prefersDark: bool)
    requires IsTheme(t)
    ensures InitialTheme(StoredTheme(storage[ThemeKey := t]), prefersDark) == t
  {
  }

  class ThemeToggle {
    var theme: string
    /** The browser's local storage. */
    var storage: map<string, string>
    /** Whether the document root carries the `dark` class. */
    var darkClass: bool

    /** The root class follows the theme. */
    ghost predicate Valid()
      reads this
    {
      darkClass <==> theme == Dark
    }

    /** The state before the mount effect: light, over the given storage and root class. */
    constructor (initialStorage: map<string, string>, initialDarkClass: bool)
      ensures theme == Light
      ensures storage == initialStorage && darkClass == initialDarkClass
    {
      theme := Light;
      storage := initialStorage;
      darkClass := initialDarkClass;
    }

    /** The mount effect: pick the initial theme and set the root class; storage is only read. */
    method Mount(prefersDark: bool)
      modifies this
      ensures Valid()
      ensures theme == InitialTheme(StoredTheme(storage), prefersDark)
      ensures storage == old(storage)
    {
      var savedTheme := StoredTheme(storage);
      var initialTheme := InitialTheme(savedTheme, prefersDark);
      theme := initialTheme;
      darkClass := initialTheme == Dark;
    }

    /** `toggleTheme`: switch, persist the new theme, and set the root class. */
    method ToggleTheme()
      modifies this
      ensures Valid()
      ensures IsTheme(theme)
      ensures theme == Toggled(old(theme))
      ensures storage == old(storage)[ThemeKey := theme]
    {
      var newTheme := if theme == Light then Dark else Light;
      theme := newTheme;
      storage := storage[ThemeKey := newTheme];
      darkClass := newTheme == Dark;
    }
  }

  /** Two clicks from either theme restore it, and storage then holds that theme. */
  method ToggleTwice(page: ThemeToggle)
    requires IsTheme(page.theme)
    modifies page
    ensures page.Valid()
    ensures page.theme == old(page.theme)
    ensures page.storage == old(page.storage)[ThemeKey := old(page.theme)]
  {
    page.ToggleTheme();
    page.ToggleTheme();
    ToggleInvolutive(old(page.theme));
  }

  /** A click followed by a reload with any system preference shows the theme that was clicked to. */
  method ToggleThenReload(storage: map<string, string>, prefersDark: bool, prefersDarkLater: bool)
    returns (before: string, after: string)
    ensures IsTheme(after)
    ensures after == Toggled(before)
  {
    var page := new ThemeToggle(storage, false);
    page.Mount(prefersDark);
    before := page.theme;
    page.ToggleTheme();
    var reloaded := new ThemeToggle(page.storage, page.darkClass);
    reloaded.Mount(prefersDarkLater);
    after := reloaded.theme;
    PersistedChoiceWins(storage, page.theme, prefersDarkLater);
  }
}
