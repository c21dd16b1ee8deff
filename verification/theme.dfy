/**
 The page's light/dark theme: resolution of the initial theme from the
 stored preference and the system colour-scheme preference, the toggle
 button's click handler, and the `light-active` marker on that button.

 The browser is reduced to plain values: the persisted `theme` key is an
 `Option<string>` (`None` when nothing is stored), the system preference is
 an `Option<bool>` (`None` when the colour-scheme query is unavailable), and
 the document's `data-theme` attribute is a string.
 */
module Theme {

  datatype Option<T> = None | Some(value: T)

  /** The two themes the page knows. */
  datatype Theme = Light | Dark

  /** The attribute and storage spelling of a theme. */
  function Name(t: Theme): string
  {
    match t
    case Light => "light"
    case Dark => "dark"
  }

  /** Reads an attribute or stored value back as a theme: only the exact
      spellings "light" and "dark" are themes. */
  function Parse(s: string): (r: Option<Theme>)
    ensures r.Some? <==> (s == "light" || s == "dark")
    ensures r.Some? ==> Name(r.value) == s
  {
    if s == "light" then Some(Light)
    else if s == "dark" then Some(Dark)
    else None
  }

  /** The other theme. */
  function Flip(t: Theme): Theme
  {
    match t
    case Light => Dark
    case Dark => Light
  }

  /** True when `stored` holds a recognised theme name. */
  predicate StoredIsTheme(stored: Option<string>)
  {
    stored.Some? && Parse(stored.value).Some?
  }

  /** Initial theme: the stored one when it is exactly "light" or "dark",
      otherwise dark exactly when the system reports a dark preference
      (an unavailable query counts as no preference). */
  function Resolve(stored: Option<string>, prefersDark: Option<bool>): (t: Theme)
    ensures StoredIsTheme(stored) ==> t == Parse(stored.value).value
    ensures !StoredIsTheme(stored) ==> (t == Dark <==> prefersDark == Some(true))
  {
    match stored
    case Some(s) =>
      if s == "light" then Light
      else if s == "dark" then Dark
      else FromSystem(prefersDark)
    case None => FromSystem(prefersDark)
  }

  function FromSystem(prefersDark: Option<bool>): Theme
  {
    match prefersDark
    case Some(true) => Dark
    case _ => Light
  }

  /** What the theme code reads and writes on the page. */
  datatype Page = Page(dataTheme: string, stored: Option<string>, lightActive: bool)

  /** The toggle button carries `light-active` exactly when the attribute
      reads "light"; any other attribute value removes it. */
  function SyncToggleButton(p: Page): (r: Page)
    ensures r.lightActive <==> r.dataTheme == "light"
    ensures r.dataTheme == p.dataTheme && r.stored == p.stored
  {
    p.(lightActive := p.dataTheme == "light")
  }

  /** The page as left by the start-up code: the resolved theme on the root
      attribute, storage untouched, the button synchronised. */
  function Load(stored: Option<string>, prefersDark: Option<bool>): (p: Page)
    ensures Parse(p.dataTheme) == Some(Resolve(stored, prefersDark))
    ensures p.stored == stored
    ensures Consistent(p)
  {
    SyncToggleButton(Page(Name(Resolve(stored, prefersDark)), stored, false))
  }

  /** The button marker agrees with the attribute. */
  predicate Consistent(p: Page)
  {
    p.lightActive <==> p.dataTheme == "light"
  }

  /** A click on the toggle button: "light" becomes "dark", every other
      attribute value becomes "light"; the new value is written both to the
      attribute and to storage, and the button is synchronised. */
  function Toggle(p: Page): (r: Page)
    ensures Parse(r.dataTheme).Some?
    ensures r.dataTheme != p.dataTheme
    ensures r.stored == Some(r.dataTheme)
    ensures Consistent(r)
    ensures Parse(p.dataTheme).Some? ==> Parse(r.dataTheme).value == Flip(Parse(p.dataTheme).value)
    ensures p.dataTheme == "light" ==> r.dataTheme == "dark"
    ensures p.dataTheme != "light" ==> r.dataTheme == "light"
  {
    var next := if p.dataTheme == "light" then "dark" else "light";
    SyncToggleButton(p.(dataTheme := next, stored := Some(next)))
  }

  /** Two clicks from either valid theme restore the attribute, persist it,
      and leave the marker as it was on a synchronised page. */
  lemma ToggleTwiceRestores(p: Page)
    requires Parse(p.dataTheme).Some?
    ensures Toggle(Toggle(p)).dataTheme == p.dataTheme
    ensures Toggle(Toggle(p)).stored == Some(p.dataTheme)
    ensures Consistent(p) ==> Toggle(Toggle(p)).lightActive == p.lightActive
  {
  }

  /** What a click persists is what the next page load resolves, whatever the
      system preference is then. */
  lemma ReloadAfterToggle(p: Page, prefersDark: Option<bool>)
    ensures Load(Toggle(p).stored, prefersDark).dataTheme == Toggle(p).dataTheme
  {
  }
}
