/** Performance policy (src/page/policy.ts): classifies a decoded animation as
    large, in which case playback runs in reduced mode and a warning is shown.

    The three thresholds are configuration constants whose values are not part
    of this model; they are passed in as a `Thresholds` record.  The warning
    text is the message `warning.largeGifReducedMode` of the message table. */
module Policy {
  import opened Wrappers
  import I18n

  datatype Thresholds = Thresholds(largeFrameCount: int, largePixels: int, largeEstimatedBytes: int)

  datatype PerformancePolicy = PerformancePolicy(reducedMode: bool, warningText: Option<string>)

  const WARNING_KEY: string := "warning.largeGifReducedMode"

  /** In-memory size of all composited RGBA bitmaps. */
  function EstimatedBytes(totalFrames: int, width: int, height: int): int {
    totalFrames * width * height * 4
  }

  /** The animation exceeds at least one threshold (all comparisons strict). */
  predicate IsLarge(totalFrames: int, width: int, height: int, limits: Thresholds) {
    || totalFrames > limits.largeFrameCount
    || width * height > limits.largePixels
    || EstimatedBytes(totalFrames, width, height) > limits.largeEstimatedBytes
  }

  function ApplyPerformancePolicy(totalFrames: int, width: int, height: int, limits: Thresholds,
                                  messages: map<string, string>): (r: PerformancePolicy)
    ensures r.reducedMode <==> IsLarge(totalFrames, width, height, limits)
    ensures r.warningText.None? <==> !r.reducedMode
    ensures r.reducedMode ==> r.warningText == Some(I18n.T(messages, WARNING_KEY, None))
  {
    if !IsLarge(totalFrames, width, height, limits) then PerformancePolicy(false, None)
    else PerformancePolicy(true, Some(I18n.T(messages, WARNING_KEY, None)))
  }

  /** A value equal to its threshold does not trigger reduced mode; one more does. */
  lemma ThresholdsAreStrict(limits: Thresholds, messages: map<string, string>)
    requires limits.largeFrameCount >= 1 && limits.largePixels >= 1
    requires limits.largeEstimatedBytes >= limits.largeFrameCount * limits.largePixels * 4
    ensures !ApplyPerformancePolicy(limits.largeFrameCount, limits.largePixels, 1, limits, messages).reducedMode
    ensures ApplyPerformancePolicy(limits.largeFrameCount + 1, 1, 1, limits, messages).reducedMode
    ensures ApplyPerformancePolicy(1, limits.largePixels + 1, 1, limits, messages).reducedMode
  {
  }

  lemma MulMonotone(a: int, b: int, a': int, b': int)
    requires 0 <= a <= a' && 0 <= b <= b'
    ensures a * b <= a' * b'
  {
    assert a * b <= a' * b;
    assert a' * b <= a' * b';
  }

  /** Growing the frame count, the width or the height never leaves reduced mode. */
  lemma {:induction false} ReducedModeMonotone(f: int, w: int, h: int, f': int, w': int, h': int,
                                               limits: Thresholds, messages: map<string, string>)
    requires 0 <= f <= f' && 0 <= w <= w' && 0 <= h <= h'
    requires ApplyPerformancePolicy(f, w, h, limits, messages).reducedMode
    ensures ApplyPerformancePolicy(f', w', h', limits, messages).reducedMode
  {
    MulMonotone(w, h, w', h');
    MulMonotone(f, w * h, f', w' * h');
    assert f * w * h == f * (w * h) && f' * w' * h' == f' * (w' * h');
  }
}
