/**
 The pricing slider of the cinematic page: a Swiper carousel exists only on
 narrow screens. initSwiper runs once at load and again on every resize; it
 creates the slider when the window is at most 768 pixels wide and none
 exists, and destroys it when the window is wider and one exists.

 A slider is an object whose only modelled state is whether it has been
 destroyed; the Swiper library itself (options, rendering, destroy's DOM
 clean-up) is not modelled.
 */
module PricingSlider {

  const BREAKPOINT: int := 768

  /** One `new Swiper('.pricing-slider', swiperOptions)` instance. */
  class Swiper {
    /** destroy(true, true) has been called on it. */
    ghost var destroyed: bool

    constructor ()
      ensures !destroyed
    {
      destroyed := false;
    }

    method Destroy()
      modifies this
      ensures destroyed
    {
      destroyed := true;
    }
  }

  class Page {
    /** The pricingSwiper variable: the live slider, or null for undefined. */
    var pricingSwiper: Swiper?

    constructor ()
      ensures pricingSwiper == null
    {
      pricingSwiper := null;
    }

    /** initSwiper for the current window.innerWidth. Afterwards a slider
        exists exactly when the window is narrow, whatever the state before;
        a slider that already fits the width is kept rather than re-created,
        so running it again with the same width changes nothing. */
    method InitSwiper(innerWidth: int)
      modifies this, pricingSwiper
      ensures pricingSwiper != null <==> innerWidth <= BREAKPOINT
      ensures (old(pricingSwiper) != null) == (innerWidth <= BREAKPOINT) ==>
                pricingSwiper == old(pricingSwiper) && (pricingSwiper != null ==> unchanged(pricingSwiper))
      ensures old(pricingSwiper) == null && innerWidth <= BREAKPOINT ==>
                fresh(pricingSwiper) && !pricingSwiper.destroyed
      ensures old(pricingSwiper) != null && innerWidth > BREAKPOINT ==> old(pricingSwiper).destroyed
    {
      if innerWidth <= BREAKPOINT && pricingSwiper == null {
        pricingSwiper := new Swiper();
      } else if innerWidth > BREAKPOINT && pricingSwiper != null {
        pricingSwiper.Destroy();
        pricingSwiper := null;
      }
    }
  }
}
