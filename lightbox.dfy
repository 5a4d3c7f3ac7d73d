/** The image lightbox: an overlay showing one enlarged image, closed by button, backdrop or Escape. */
module Lightbox {
  import opened Page

  /** A clickable page image: its `src` and its `alt` text (`""` when absent). */
  datatype Image = Image(src: string, alt: string)

  /** The alt text given to the enlarged image when the clicked one has none. */
  const DefaultAlt: string := "Image en grand"

  /** `alt || "Image en grand"`: the enlarged image always has a non-empty alt text. */
  function DisplayAlt(alt: string): (r: string)
    ensures r != ""
    ensures alt != "" ==> r == alt
    ensures alt == "" ==> r == DefaultAlt
  {
    if alt != "" then alt else DefaultAlt
  }

  class LightboxManager {
    const doc: Document
    /** The `lightbox` overlay and the `lightbox-img` element exist and at least one image qualifies. */
    const enabled: bool
    /** The `.close-lightbox` button exists. */
    const hasCloseButton: bool
    /** The qualifying images, in document order. */
    const images: seq<Image>
    /** The overlay carries `active`. */
    var active: bool
    /** The `src` and `alt` of the enlarged image. */
    var src: string
    var alt: string

    /** Finds the overlay, its image, the close button and the qualifying images; their state is that of the markup. */
    constructor (doc: Document, hasOverlay: bool, hasImage: bool, hasCloseButton: bool, images: seq<Image>,
                 active: bool, src: string, alt: string)
      ensures this.doc == doc && this.images == images && this.hasCloseButton == hasCloseButton
      ensures enabled == (hasOverlay && hasImage && |images| > 0)
      ensures this.active == active && this.src == src && this.alt == alt
    {
      this.doc := doc;
      this.images := images;
      this.hasCloseButton := hasCloseButton;
      enabled := hasOverlay && hasImage && |images| > 0;
      this.active, this.src, this.alt := active, src, alt;
    }

    /** A click on the `k`-th qualifying image opens the overlay on it and locks scrolling. */
    method Open(k: nat)
      requires k < |images|
      modifies this, doc`noScroll
      ensures enabled ==> active && doc.noScroll
      ensures enabled ==> src == images[k].src && alt == DisplayAlt(images[k].alt)
      ensures !enabled ==> active == old(active) && doc.noScroll == old(doc.noScroll)
      ensures !enabled ==> src == old(src) && alt == old(alt)
    {
      if enabled {
        src := images[k].src;
        alt := DisplayAlt(images[k].alt);
        active := true;
        doc.noScroll := true;
      }
    }

    /** Hides the overlay and restores scrolling; the last image stays loaded. */
    method Close()
      modifies this, doc`noScroll
      ensures enabled ==> !active && !doc.noScroll
      ensures !enabled ==> active == old(active) && doc.noScroll == old(doc.noScroll)
      ensures src == old(src) && alt == old(alt)
    {
      if enabled {
        active := false;
        doc.noScroll := false;
      }
    }

    /** A click on the close button, when there is one. */
    method OnCloseButtonClick()
      modifies this, doc`noScroll
      ensures enabled && hasCloseButton ==> !active && !doc.noScroll
      ensures !(enabled && hasCloseButton) ==> active == old(active) && doc.noScroll == old(doc.noScroll)
      ensures src == old(src) && alt == old(alt)
    {
      if hasCloseButton {
        Close();
      }
    }

    /** A click that reaches the overlay: it closes only when the target is the backdrop itself, not the image. */
    method OnOverlayClick(targetIsOverlay: bool)
      modifies this, doc`noScroll
      ensures enabled && targetIsOverlay ==> !active && !doc.noScroll
      ensures !(enabled && targetIsOverlay) ==> active == old(active) && doc.noScroll == old(doc.noScroll)
      ensures src == old(src) && alt == old(alt)
    {
      if targetIsOverlay {
        Close();
      }
    }

    /** A key press anywhere: Escape closes an open overlay; anything else changes nothing. */
    method OnKeyDown(key: string)
      modifies this, doc`noScroll
      ensures enabled && key == "Escape" && old(active) ==> !active && !doc.noScroll
      ensures !(enabled && key == "Escape" && old(active)) ==> active == old(active) && doc.noScroll == old(doc.noScroll)
      ensures src == old(src) && alt == old(alt)
    {
      if enabled && key == "Escape" && active {
        Close();
      }
    }
  }
}
