/**
 * The document-wide state the components share: the `no-scroll` class on
 * `<body>` (written by the navigation menu and by the lightbox), the
 * `dark-mode` class on `<html>` and the origin's `localStorage`.
 */
module Page {

  class Document {
    /** `document.body` carries the `no-scroll` class. */
    var noScroll: bool
    /** `document.documentElement` carries the `dark-mode` class. */
    var darkMode: bool
    /** `localStorage`, as a map from keys to stored strings. */
    var storage: map<string, string>

    constructor (noScroll: bool, darkMode: bool, storage: map<string, string>)
      ensures this.noScroll == noScroll && this.darkMode == darkMode && this.storage == storage
    {
      this.noScroll := noScroll;
      this.darkMode := darkMode;
      this.storage := storage;
    }
  }
}
