/**
 The lightbox of the portrait and cinematic gallery pages: clicking a gallery
 image shows it enlarged, and four paths close it again (the close button, a
 click on the backdrop, a click on the enlarged image, the Escape key).

 The browser's answers are parameters: the clicked element's tag name and
 src, and whether the lightbox image is already `complete` once its src is
 set. The load event of the lightbox image is the event method
 OnLightboxImageLoad.
 */
module Lightbox {

  class Viewer {
    /** The lightbox element carries the `show` class. */
    var shown: bool
    /** lightboxImg.src */
    var src: string
    /** lightboxImg.onload is the show handler (otherwise it is null). */
    var showOnLoad: bool

    constructor (initialSrc: string)
      ensures !shown && src == initialSrc && !showOnLoad
    {
      shown := false;
      src := initialSrc;
      showOnLoad := false;
    }

    /** showLightbox: add `show` and clear the pending onload handler. */
    method ShowLightbox()
      modifies this`shown, this`showOnLoad
      ensures shown && !showOnLoad
    {
      shown := true;
      showOnLoad := false;
    }

    /** The delegated click on the gallery container. Only an IMG target
        reacts: its src goes to the lightbox image, which is shown at once if
        the browser already has it and otherwise when it loads. */
    method OnGalleryClick(tagName: string, targetSrc: string, complete: bool)
      modifies this
      ensures tagName != "IMG" ==> shown == old(shown) && src == old(src) && showOnLoad == old(showOnLoad)
      ensures tagName == "IMG" ==> src == targetSrc
      ensures tagName == "IMG" && complete ==> shown && !showOnLoad
      ensures tagName == "IMG" && !complete ==> shown == old(shown) && showOnLoad
    {
      if tagName == "IMG" {
        src := targetSrc;
        if complete {
          ShowLightbox();
        } else {
          showOnLoad := true;
        }
      }
    }

    /** The lightbox image finished loading: the pending handler, if any,
        shows the lightbox and removes itself, so a later load does nothing. */
    method OnLightboxImageLoad()
      modifies this`shown, this`showOnLoad
      ensures old(showOnLoad) ==> shown && !showOnLoad
      ensures !old(showOnLoad) ==> shown == old(shown) && !showOnLoad
    {
      if showOnLoad {
        ShowLightbox();
      }
    }

    /** closeLightbox: remove `show` and clear the image src. */
    method Close()
      modifies this`shown, this`src
      ensures !shown && src == ""
    {
      shown := false;
      src := "";
    }

    /** The close button. */
    method OnCloseButtonClick()
      modifies this`shown, this`src
      ensures !shown && src == ""
    {
      Close();
    }

    /** A click inside the lightbox closes it only when it lands on the
        backdrop itself, not on a child element. */
    method OnBackdropClick(targetIsLightbox: bool)
      modifies this`shown, this`src
      ensures targetIsLightbox ==> !shown && src == ""
      ensures !targetIsLightbox ==> shown == old(shown) && src == old(src)
    {
      if targetIsLightbox {
        Close();
      }
    }

    /** A click on the enlarged image. */
    method OnLightboxImageClick()
      modifies this`shown, this`src
      ensures !shown && src == ""
    {
      Close();
    }

    /** Escape closes the lightbox only while it is shown; any other key, or
        Escape while hidden, changes nothing. */
    method OnKeyDown(key: string)
      modifies this`shown, this`src
      ensures key == "Escape" && old(shown) ==> !shown && src == ""
      ensures !(key == "Escape" && old(shown)) ==> shown == old(shown) && src == old(src)
    {
      if key == "Escape" && shown {
        Close();
      }
    }
  }
}
