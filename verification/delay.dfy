/** The delay policy: a speed setting in [1, 100] becomes the number of
    milliseconds every animation step sleeps. */
module Delay {

  /** Slowest and fastest positions of the speed slider. */
  const MinSpeed := 1
  const MaxSpeed := 100

  /** `max(1, 200 - 2 * speed)`: the raw value, clamped to a 1 ms floor. */
  function GetDelay(speed: int): (ms: int)
    ensures ms >= 1 && ms >= 200 - 2 * speed
    ensures ms == 1 || ms == 200 - 2 * speed
  {
    if 200 - speed * 2 > 1 then 200 - speed * 2 else 1
  }

  /** A faster setting never waits longer. */
  lemma DelayNonIncreasing(s1: int, s2: int)
    requires s1 <= s2
    ensures GetDelay(s2) <= GetDelay(s1)
  {
  }

  /** Up to the top of the slider every step of speed shortens the delay;
      beyond it the floor holds. */
  lemma DelayStrictlyDecreasing(s1: int, s2: int)
    requires s1 < s2 <= MaxSpeed
    ensures GetDelay(s2) < GetDelay(s1)
  {
  }

  /** On the slider's range the delay lies in [1, 198]: the slowest setting
      waits 198 ms, the fastest 1 ms. */
  lemma DelayOnSlider(speed: int)
    requires MinSpeed <= speed <= MaxSpeed
    ensures 1 <= GetDelay(speed) <= 198
    ensures GetDelay(MinSpeed) == 198 && GetDelay(50) == 100 && GetDelay(MaxSpeed) == 1
  {
  }
}
