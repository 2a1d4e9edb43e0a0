/**
 The back-to-top button of the portrait and cinematic pages: every scroll
 event shows it exactly when the page is scrolled more than 300 pixels down.
 Clicking it only asks the browser to scroll smoothly to the top, which the
 model leaves to the browser.
 */
module BackToTop {

  /** The scroll offset past which the button shows. */
  const SHOW_THRESHOLD: real := 300.0

  class Button {
    /** The button carries the `show` class. */
    var shown: bool

    constructor ()
      ensures !shown
    {
      shown := false;
    }

    /** The scroll listener, given window.scrollY. */
    method OnScroll(scrollY: real)
      modifies this
      ensures shown <==> scrollY > SHOW_THRESHOLD
    {
      if scrollY > SHOW_THRESHOLD {
        shown := true;
      } else {
        shown := false;
      }
    }
  }
}
