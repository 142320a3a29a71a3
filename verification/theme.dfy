/**
 * The theme toggle component: the initial theme is read from local
 * storage or from the system's dark-mode preference, a click flips it, and
 * an effect keeps the `dark` class on the root element and the stored
 * `theme` key in step with it.
 *
 * The browser is reduced to values: whether a window exists, the storage
 * map, the root element's class set and the media-query answer. The theme
 * itself is a string, because a stored value is adopted without checking
 * that it is `light` or `dark`.
 */
module Theme {

  const Light: string := "light"
  const Dark: string := "dark"

  /** The local-storage key that holds the theme. */
  const StorageKey: string := "theme"

  /** The class on the root element that switches dark styling on. */
  const DarkClass: string := "dark"

  /** The stored value counts only if present and truthy, that is, not empty. */
  predicate HasStoredTheme(storage: map<string, string>)
    ensures !HasStoredTheme(storage) <==> StorageKey !in storage || storage[StorageKey] == ""
  {
    StorageKey in storage && storage[StorageKey] != ""
  }

  /**
   * The lazy initial state of `useState`: `light` without a window; else a
   * truthy stored value, whatever it is; else `dark` if the system prefers
   * dark, else `light`.
   */
  function InitialTheme(hasWindow: bool, storage: map<string, string>, prefersDark: bool): (theme: string)
    ensures !hasWindow ==> theme == Light
    ensures hasWindow && HasStoredTheme(storage) ==> theme == storage[StorageKey]
    ensures hasWindow && !HasStoredTheme(storage) ==> theme == (if prefersDark then Dark else Light)
    ensures theme != ""
  {
    if hasWindow && HasStoredTheme(storage) then storage[StorageKey]
    else if hasWindow && prefersDark then Dark
    else Light
  }

  /** A stored `light` beats a system preference for dark, and vice versa. */
  lemma StoredThemeWins(storage: map<string, string>, prefersDark: bool)
    requires StorageKey in storage && storage[StorageKey] in {Light, Dark}
    ensures InitialTheme(true, storage, prefersDark) == storage[StorageKey]
    ensures InitialTheme(true, storage, !prefersDark) == InitialTheme(true, storage, prefersDark)
  {
  }

  /** Unless storage holds something else, the initial theme is one of the two modes. */
  lemma InitialThemeIsMode(hasWindow: bool, storage: map<string, string>, prefersDark: bool)
    requires HasStoredTheme(storage) ==> storage[StorageKey] in {Light, Dark}
    ensures InitialTheme(hasWindow, storage, prefersDark) in {Light, Dark}
  {
  }

  /** `theme === 'light' ? 'dark' : 'light'`. */
  function Toggled(theme: string): (next: string)
    ensures next in {Light, Dark}
    ensures next == Dark <==> theme == Light
    ensures next != theme
  {
    if theme == Light then Dark else Light
  }

  /** Two clicks from either mode come back to it; from any other value they end on `dark`. */
  lemma ToggleTwice(theme: string)
    ensures theme in {Light, Dark} ==> Toggled(Toggled(theme)) == theme
    ensures theme !in {Light, Dark} ==> Toggled(Toggled(theme)) == Dark
  {
  }

  /** The root element's classes after the effect: `dark` added or removed, nothing else touched. */
  function ApplyTheme(theme: string, classes: set<string>): (r: set<string>)
    ensures DarkClass in r <==> theme == Dark
    ensures forall c :: c != DarkClass ==> (c in r <==> c in classes)
  {
    if theme == Dark then classes + {DarkClass} else classes - {DarkClass}
  }

  /** Local storage after the effect: `theme` holds the theme, every other key is kept. */
  function PersistTheme(theme: string, storage: map<string, string>): (r: map<string, string>)
    ensures StorageKey in r && r[StorageKey] == theme
    ensures forall k :: k != StorageKey ==> (k in r <==> k in storage)
    ensures forall k :: k != StorageKey && k in storage ==> r[k] == storage[k]
  {
    storage[StorageKey := theme]
  }

  /** Running the effect a second time with the same theme changes nothing. */
  lemma EffectIdempotent(theme: string, classes: set<string>, storage: map<string, string>)
    ensures ApplyTheme(theme, ApplyTheme(theme, classes)) == ApplyTheme(theme, classes)
    ensures PersistTheme(theme, PersistTheme(theme, storage)) == PersistTheme(theme, storage)
  {
  }

  /**
   * After the effect has saved a theme, the next page load starts from that
   * theme again, whatever the system preference says.
   */
  lemma ReloadRestoresTheme(theme: string, storage: map<string, string>, prefersDark: bool)
    requires theme != ""
    ensures InitialTheme(true, PersistTheme(theme, storage), prefersDark) == theme
  {
  }

  datatype Icon = Sun | Moon

  /** The button's aria-label: switch to light ("Claro") when dark, else to dark ("Escuro"). */
  function AriaLabel(theme: string): (text: string)
    ensures text == "Mudar para modo Claro" <==> theme == Dark
    ensures text == "Mudar para modo Escuro" <==> theme != Dark
  {
    "Mudar para modo " + (if theme == Dark then "Claro" else "Escuro")
  }

  /** The sun is shown exactly when the theme is dark, the moon otherwise. */
  function IconFor(theme: string): (icon: Icon)
    ensures icon == Sun <==> theme == Dark
  {
    if theme == Dark then Sun else Moon
  }

  /**
   * One mounted toggle with the page state it touches: its React state
   * `theme`, the root element's class list and local storage.
   */
  class ThemeToggler {
    var theme: string
    var rootClasses: set<string>
    var storage: map<string, string>

    /** The page shows and stores the current theme. */
    ghost predicate Synced()
      reads this
    {
      && (DarkClass in rootClasses <==> theme == Dark)
      && StorageKey in storage && storage[StorageKey] == theme
    }

    /** First render: the state is initialised lazily; the page is not yet touched. */
    constructor (hasWindow: bool, classes: set<string>, saved: map<string, string>, prefersDark: bool)
      ensures theme == InitialTheme(hasWindow, saved, prefersDark)
      ensures rootClasses == classes && storage == saved
    {
      theme := InitialTheme(hasWindow, saved, prefersDark);
      rootClasses := classes;
      storage := saved;
    }

    /** The `useEffect` on `[theme]`: update the class list, then write storage. */
    method SyncEffect()
      modifies this`rootClasses, this`storage
      ensures theme == old(theme)
      ensures rootClasses == ApplyTheme(theme, old(rootClasses))
      ensures storage == PersistTheme(theme, old(storage))
      ensures Synced()
      ensures old(Synced()) ==> rootClasses == old(rootClasses) && storage == old(storage)
    {
      rootClasses := ApplyTheme(theme, rootClasses);
      storage := PersistTheme(theme, storage);
    }

    /** `toggleTheme`: sets the state to the flipped theme. */
    method ToggleTheme()
      modifies this`theme
      ensures theme == Toggled(old(theme))
    {
      theme := Toggled(theme);
    }

    /**
     * A click: the state changes (a toggle never returns the same theme), so
     * the effect runs again and the page follows.
     */
    method Click()
      modifies this
      ensures theme == Toggled(old(theme))
      ensures rootClasses == ApplyTheme(theme, old(rootClasses))
      ensures storage == PersistTheme(theme, old(storage))
      ensures Synced()
    {
      ToggleTheme();
      SyncEffect();
    }
  }

  /**
   * Mounting, then clicking twice: the theme, the root classes and the
   * storage end as the first effect left them, on a first visit as well as
   * with a stored mode; a stored mode is kept and storage is unchanged.
   */
  method MountAndClickTwice(classes: set<string>, saved: map<string, string>, prefersDark: bool)
    returns (first: string, last: string, firstClasses: set<string>, lastClasses: set<string>,
             firstStorage: map<string, string>, lastStorage: map<string, string>)
    requires HasStoredTheme(saved) ==> saved[StorageKey] in {Light, Dark}
    ensures first == last
    ensures firstClasses == lastClasses
    ensures firstStorage == lastStorage
    ensures HasStoredTheme(saved) ==> first == saved[StorageKey] && firstStorage == saved
  {
    InitialThemeIsMode(true, saved, prefersDark);
    var toggler := new ThemeToggler(true, classes, saved, prefersDark);
    toggler.SyncEffect();
    first, firstClasses, firstStorage := toggler.theme, toggler.rootClasses, toggler.storage;
    toggler.Click();
    toggler.Click();
    last, lastClasses, lastStorage := toggler.theme, toggler.rootClasses, toggler.storage;
  }
}
