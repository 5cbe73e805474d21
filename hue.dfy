/** The background hue of the C coding-club demo: an `unsigned int` that starts
    at 0 and goes through `if (++hue > 360) hue = 0;` once per frame. */
module Hue {
  import Counter

  const HUE_MAX: nat := 360

  /** The hue after `frames` frames of the demo loop. */
  method HueAfterFrames(frames: nat) returns (hue: nat)
    ensures hue <= HUE_MAX
    ensures hue == Counter.Iterate(frames, 0, HUE_MAX)
    ensures hue == frames % (HUE_MAX + 1)
  {
    hue := 0;
    var f: nat := 0;
    while f < frames
      invariant f <= frames
      invariant hue == Counter.Iterate(f, 0, HUE_MAX)
    {
      hue := hue + 1;
      if hue > HUE_MAX {
        hue := 0;
      }
      f := f + 1;
    }
    Counter.IterateClosedForm(frames, 0, HUE_MAX);
  }

  /** The hue runs 1, 2, ..., 360, 0 over the first 361 frames and then repeats. */
  lemma HueSequence(frames: nat)
    ensures Counter.Iterate(frames, 0, HUE_MAX) == frames % (HUE_MAX + 1)
    ensures Counter.Iterate(frames + HUE_MAX + 1, 0, HUE_MAX) == Counter.Iterate(frames, 0, HUE_MAX)
    ensures 1 <= frames <= HUE_MAX ==> Counter.Iterate(frames, 0, HUE_MAX) == frames
    ensures Counter.Iterate(HUE_MAX + 1, 0, HUE_MAX) == 0
  {
    Counter.IterateClosedForm(frames, 0, HUE_MAX);
    Counter.IterateAdd(frames, HUE_MAX + 1, 0, HUE_MAX);
    Counter.IteratePeriod(Counter.Iterate(frames, 0, HUE_MAX), HUE_MAX);
    Counter.IteratePeriod(0, HUE_MAX);
    if frames <= HUE_MAX {
      Counter.IterateNoWrap(frames, 0, HUE_MAX);
    }
  }
}
