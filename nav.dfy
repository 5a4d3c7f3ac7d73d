/** The mobile burger menu: the panel's `mobile-menu` class and the body's `no-scroll` class. */
module Nav {
  import opened Page

  /** The two classes a menu event touches. */
  datatype MenuFlags = MenuFlags(menuOpen: bool, noScroll: bool)

  /** `classList.toggle` on each class: each flag flips on its own, so whether the two agree is kept. */
  function Toggled(f: MenuFlags): (r: MenuFlags)
    ensures (r.menuOpen == r.noScroll) == (f.menuOpen == f.noScroll)
  {
    MenuFlags(!f.menuOpen, !f.noScroll)
  }

  /** `classList.remove` on each class: closing brings the two flags back in step, both off. */
  function Closed(f: MenuFlags): (r: MenuFlags)
    ensures r.menuOpen == r.noScroll && !r.noScroll
  {
    MenuFlags(false, false)
  }

  /** Two burger clicks restore whatever state the flags were in, in sync or not. */
  lemma ToggleTwiceRestores(f: MenuFlags)
    ensures Toggled(Toggled(f)) == f
  {
  }

  /** Closing an already closed menu changes nothing. */
  lemma CloseIdempotent(f: MenuFlags)
    ensures Closed(Closed(f)) == Closed(f)
  {
  }

  /**
   * The two flags are toggled independently, so once another component (the
   * lightbox) has set `no-scroll` behind the menu's back, toggling keeps them
   * out of step: an open menu then leaves the page scrollable.
   */
  lemma ToggleKeepsMismatch(f: MenuFlags)
    requires f.menuOpen != f.noScroll
    ensures Toggled(f).menuOpen != Toggled(f).noScroll
  {
  }

  class NavigationManager {
    const doc: Document
    /** Both the `burger-menu` trigger and the `nav-links` panel exist. */
    const enabled: bool
    /** The panel carries `mobile-menu`. */
    var menuOpen: bool

    function Flags(): MenuFlags
      reads this, doc
    {
      MenuFlags(menuOpen, doc.noScroll)
    }

    constructor (doc: Document, hasBurger: bool, hasPanel: bool, menuOpen: bool)
      ensures this.doc == doc && enabled == (hasBurger && hasPanel) && this.menuOpen == menuOpen
    {
      this.doc := doc;
      enabled := hasBurger && hasPanel;
      this.menuOpen := menuOpen;
    }

    /** A click on the burger. */
    method ToggleMenu()
      modifies this, doc`noScroll
      ensures enabled ==> Flags() == Toggled(old(Flags()))
      ensures !enabled ==> Flags() == old(Flags())
    {
      if enabled {
        menuOpen := !menuOpen;
        doc.noScroll := !doc.noScroll;
      }
    }

    /** A click on any link inside the panel. */
    method CloseMenu()
      modifies this, doc`noScroll
      ensures enabled ==> Flags() == Closed(old(Flags()))
      ensures !enabled ==> Flags() == old(Flags())
    {
      if enabled {
        menuOpen := false;
        doc.noScroll := false;
      }
    }
  }
}
