/** The scroll listener that shows the quote in the navigation bar. */
module ScrollTracker {

  /** Pixels the page must be scrolled past before the quote shows. */
  const QuoteThreshold := 200

  /** window.scrollY || document.documentElement.scrollTop: a zero scrollY defers to scrollTop. */
  function ScrollOffset(scrollY: int, scrollTop: int): (r: int)
    ensures scrollY != 0 ==> r == scrollY
    ensures scrollY == 0 ==> r == scrollTop
  {
    if scrollY != 0 then scrollY else scrollTop
  }

  /** scrolled > 200: hidden up to and including 200 pixels, shown from 201 on. */
  function QuoteVisible(scrolled: int): (r: bool)
    ensures scrolled <= 200 ==> !r
    ensures scrolled >= 201 ==> r
  {
    scrolled > QuoteThreshold
  }

  /** One threshold and no hysteresis band: further down never hides the quote, further up never shows it. */
  lemma QuoteMonotone(lower: int, higher: int)
    requires lower <= higher
    ensures QuoteVisible(lower) ==> QuoteVisible(higher)
    ensures !QuoteVisible(higher) ==> !QuoteVisible(lower)
  {
  }
}
