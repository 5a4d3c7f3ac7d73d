/** The dark/light theme switch: a checkbox mirrored onto `dark-mode` and persisted. */
module Theme {
  import opened Page

  /** The key under which the theme is persisted. */
  const ThemeKey: string := "theme"

  /** The value persisted for a theme: `"dark"` or `"light"`. */
  function StoredValue(isDark: bool): (r: string)
    ensures r == "dark" || r == "light"
    ensures r == "dark" <==> isDark
  {
    if isDark then "dark" else "light"
  }

  class ThemeManager {
    const doc: Document
    /** The `theme-toggle` checkbox exists; without it the manager does nothing. */
    const enabled: bool
    /** The checkbox's `checked` state. */
    var checked: bool

    /** Looks up the checkbox and, when present, aligns it with the document's theme. */
    constructor (doc: Document, hasToggle: bool, checked: bool)
      ensures this.doc == doc && enabled == hasToggle
      ensures this.checked == if hasToggle then doc.darkMode else checked
    {
      this.doc := doc;
      enabled := hasToggle;
      this.checked := if hasToggle then doc.darkMode else checked;
    }

    /** The `change` listener: the document's theme follows the checkbox and is persisted. */
    method ToggleTheme()
      modifies doc`darkMode, doc`storage
      ensures enabled ==> doc.darkMode == checked
      ensures enabled ==> doc.storage == old(doc.storage)[ThemeKey := StoredValue(checked)]
      ensures !enabled ==> doc.darkMode == old(doc.darkMode) && doc.storage == old(doc.storage)
    {
      if enabled {
        var isDark := checked;
        doc.darkMode := isDark;
        doc.storage := doc.storage[ThemeKey := StoredValue(isDark)];
      }
    }

    /**
     * The user clicks the checkbox: the browser flips `checked` and then fires
     * `change`. A missing checkbox cannot be clicked.
     */
    method OnChange()
      modifies this, doc`darkMode, doc`storage
      ensures enabled ==> checked == !old(checked) && doc.darkMode == checked
      ensures enabled ==> doc.storage == old(doc.storage)[ThemeKey := StoredValue(checked)]
      ensures enabled ==> forall k :: k != ThemeKey ==> (k in doc.storage <==> k in old(doc.storage))
      ensures enabled ==> forall k :: k != ThemeKey && k in doc.storage ==> doc.storage[k] == old(doc.storage)[k]
      ensures !enabled ==> checked == old(checked) && doc.darkMode == old(doc.darkMode) && doc.storage == old(doc.storage)
    {
      if enabled {
        checked := !checked;
        ToggleTheme();
      }
    }
  }
}
