/**
 The home section's hero text fades out as the page scrolls: its opacity is
 `1 - scrollY / 500`, floored at 0.
 */
module HeroFade {

  /** Scroll distance, in px, over which the hero text fades out. */
  const FadeDistance: real := 500.0

  /** Hero text opacity as a function of the scroll offset. */
  function HeroOpacity(scrollY: real): (r: real)
    ensures r >= 0.0
    ensures scrollY >= 0.0 ==> r <= 1.0
    ensures r == 0.0 <==> scrollY >= FadeDistance
  {
    var fade := 1.0 - scrollY / FadeDistance;
    if fade > 0.0 then fade else 0.0
  }

  /** Hero opacity never rises as the page scrolls further down. */
  lemma OpacityNonIncreasing(a: real, b: real)
    requires a <= b
    ensures HeroOpacity(b) <= HeroOpacity(a)
  {
  }
}
