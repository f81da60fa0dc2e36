/** The dark-mode switch of dark-mode.js, and its copy at the end of main.js:
    a `dark-mode` class on the body, a button whose label names the mode a
    click would switch to, and the choice kept in storage under `site-theme`
    as the string `dark` or `light`. */
module Theme {
  import opened Values
  import Storage

  const ThemeKey := "site-theme"

  /** The toggle button: its text and its `aria-pressed` attribute. */
  datatype Button = Button(text: string, pressed: bool)

  /** What the theme code can see and change: whether the body has the
      `dark-mode` class, the button if the page has one, and the storage. */
  datatype Page = Page(dark: bool, button: Option<Button>, store: Storage.Store<string>)

  /** The stored form of a mode. */
  function Encode(dark: bool): (v: string)
    ensures (v == "dark") == dark
    ensures v != ""
  {
    if dark then "dark" else "light"
  }

  /** `updateToggleLabel`'s rendering of a mode. */
  function Label(dark: bool): (b: Button)
    ensures b.pressed == dark
    ensures b.text == "Light Mode" || b.text == "Dark Mode"
    ensures b.text == "Light Mode" <==> dark
  {
    if dark then Button("Light Mode", true) else Button("Dark Mode", false)
  }

  /** The button, when there is one, shows the current mode. */
  predicate Labelled(p: Page) {
    p.button.Some? ==> p.button.value == Label(p.dark)
  }

  /** `updateToggleLabel`: relabels the button, if any; nothing else changes. */
  function UpdateToggleLabel(p: Page): (q: Page)
    ensures Labelled(q)
    ensures q.dark == p.dark && q.store == p.store
    ensures q.button.None? <==> p.button.None?
  {
    match p.button
    case None => p
    case Some(_) => p.(button := Some(Label(p.dark)))
  }

  /** `applyPreference`: dark exactly for the string `dark`, light for any other. */
  function ApplyPreference(p: Page, pref: string): (q: Page)
    ensures q.dark <==> pref == "dark"
    ensures Labelled(q) && q.store == p.store
  {
    UpdateToggleLabel(p.(dark := pref == "dark"))
  }

  /** The store after `setItem(ThemeKey, v)` inside a `try` whose `catch` is
      empty: a store that throws is left as it was. */
  function TryPut(store: Storage.Store<string>, v: string): (r: Storage.Store<string>)
    ensures store.Available? ==> r == Storage.Available(store.entries[ThemeKey := v])
    ensures store.Unavailable? ==> r == store
  {
    match Storage.Put(store, ThemeKey, v)
    case Ok(s) => s
    case Err(_) => store
  }

  /** dark-mode.js `toggle`: flip the mode, try to store it, relabel. */
  function Toggle(p: Page): (q: Page)
    ensures q.dark == !p.dark
    ensures Labelled(q)
    ensures q.button.None? <==> p.button.None?
    ensures p.store.Available? ==> q.store == Storage.Available(p.store.entries[ThemeKey := Encode(q.dark)])
    ensures p.store.Unavailable? ==> q.store == p.store
  {
    var dark := !p.dark;
    UpdateToggleLabel(Page(dark, p.button, TryPut(p.store, Encode(dark))))
  }

  /** Toggling twice restores the mode and the label; the store then holds the
      original mode. */
  lemma {:induction false} ToggleTwice(p: Page)
    requires Labelled(p)
    ensures Toggle(Toggle(p)).dark == p.dark
    ensures Toggle(Toggle(p)).button == p.button
    ensures p.store.Available? ==> Storage.Get(Toggle(Toggle(p)).store, ThemeKey) == Ok(Some(Encode(p.dark)))
  {
  }

  /** `DOMContentLoaded` in either script: a truthy stored value is applied; a
      missing or empty one, or a store that throws, keeps the page's mode; the
      label is then brought up to date. */
  function Init(p: Page): (q: Page)
    ensures Labelled(q) && q.store == p.store
    ensures (match Storage.Get(p.store, ThemeKey)
             case Ok(Some(v)) => v != "" ==> (q.dark <==> v == "dark")
             case _ => true)
    ensures (match Storage.Get(p.store, ThemeKey)
             case Ok(Some(v)) => v == "" ==> q.dark == p.dark
             case _ => q.dark == p.dark)
  {
    var p1 := match Storage.Get(p.store, ThemeKey)
      case Ok(stored) => if Truthy(stored) then ApplyPreference(p, stored.value) else p
      case Err(_) => p;
    UpdateToggleLabel(p1)
  }

  /** A fresh page on a store that holds nothing for the theme stays light. */
  lemma {:induction false} DefaultIsLight(button: Option<Button>, entries: map<string, string>)
    requires ThemeKey !in entries
    ensures !Init(Page(false, button, Storage.Available(entries))).dark
  {
  }

  /** Round trip: after a toggle, reloading a page on the same storage
      reproduces the mode the toggle chose, whatever mode the page starts in. */
  lemma {:induction false} ToggleThenReload(p: Page, dark0: bool, button: Option<Button>)
    requires p.store.Available?
    ensures Init(Page(dark0, button, Toggle(p).store)).dark == Toggle(p).dark
  {
    var v := Encode(Toggle(p).dark);
    assert Storage.Get(Toggle(p).store, ThemeKey) == Ok(Some(v));
  }

  /** When storage throws, a reload forgets the toggle: the page keeps the mode
      it starts in. */
  lemma {:induction false} ThrowingStoreForgets(p: Page, dark0: bool, button: Option<Button>)
    requires p.store.Unavailable?
    ensures Init(Page(dark0, button, Toggle(p).store)).dark == dark0
  {
  }

  // ---------------------------------------------------------------- main.js

  /** The outcome of main.js `toggle`: the page as left, and the exception it
      let escape, if any. */
  datatype Outcome = Outcome(page: Page, thrown: Option<Storage.StorageError>)

  /** main.js `toggle` as written: `setItem` has no `try`, so a store that
      throws aborts the handler after the class has flipped and before the
      label is updated. */
  function MainToggle(p: Page): (o: Outcome)
    ensures o.page.dark == !p.dark
    ensures o.thrown.None? <==> p.store.Available?
    ensures o.thrown.None? ==> o.page == Toggle(p)
    ensures o.thrown.Some? ==> o.page.button == p.button && o.page.store == p.store
  {
    var dark := !p.dark;
    match Storage.Put(p.store, ThemeKey, Encode(dark))
    case Err(e) => Outcome(Page(dark, p.button, p.store), Some(e))
    case Ok(store) => Outcome(UpdateToggleLabel(Page(dark, p.button, store)), None)
  }

  /** With a button and a store that throws, main.js leaves the button naming
      the wrong mode; dark-mode.js relabels it. */
  lemma {:induction false} MainToggleStaleLabel(p: Page)
    requires Labelled(p) && p.button.Some? && p.store.Unavailable?
    ensures !Labelled(MainToggle(p).page)
    ensures Labelled(Toggle(p)) && Toggle(p).dark == MainToggle(p).page.dark
  {
    assert Label(p.dark) != Label(!p.dark);
  }
}
