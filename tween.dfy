/**
 * The colour tween `update_channel`: one channel moves toward its target by
 * the fixed step `color_transition_speed` (0.01 of the channel range) and
 * never past it. Also what that step becomes once the result is written
 * back through `rgb_to_hex`, as `update_color` does every tick.
 */
module Tween {
  import opened ColorCodec

  /** `color_transition_speed`, set once at construction. */
  const Speed: real := 0.01

  function Dist(a: real, b: real): real {
    if a <= b then b - a else a - b
  }

  function RMin(a: real, b: real): real {
    if b < a then b else a
  }

  function RMax(a: real, b: real): real {
    if b > a then b else a
  }

  /**
   * `update_channel(current, target)`. The result lies between the two
   * inputs, and its distance to the target is the old distance less one
   * step, or zero once the step would reach the target.
   */
  function UpdateChannel(current: real, target: real): (r: real)
    ensures current <= r <= target || target <= r <= current
    ensures Dist(r, target) == RMax(0.0, Dist(current, target) - Speed)
  {
    if current < target then RMin(current + Speed, target) else RMax(current - Speed, target)
  }

  /** The target is a fixed point: the else-branch gives `max(t - 0.01, t) == t`. */
  lemma UpdateChannelFixedPoint(t: real)
    ensures UpdateChannel(t, t) == t
  {
  }

  /** The distance to the target never grows, and shrinks at every step until the target is reached. */
  lemma UpdateChannelProgress(current: real, target: real)
    ensures Dist(UpdateChannel(current, target), target) <= Dist(current, target)
    ensures current != target ==> Dist(UpdateChannel(current, target), target) < Dist(current, target)
  {
  }

  /** The comprehension `[update_channel(c, t) for c, t in zip(current_rgb, target_rgb)]`. */
  function TweenRgb(current: Rgb, target: Rgb): (r: Rgb)
    ensures RgbInUnit(current) && RgbInUnit(target) ==> RgbInUnit(r)
    ensures current == target ==> r == current
  {
    Rgb(UpdateChannel(current.red, target.red),
        UpdateChannel(current.green, target.green),
        UpdateChannel(current.blue, target.blue))
  }

  /** `n` tween steps on an exact channel, without writing it back through hex. */
  function Steps(current: real, target: real, n: nat): real {
    if n == 0 then current else UpdateChannel(Steps(current, target, n - 1), target)
  }

  /** After `n` exact steps the distance to the target is the old distance less `n` steps, but not below zero. */
  lemma {:induction false} StepsDistance(current: real, target: real, n: nat)
    ensures Dist(Steps(current, target, n), target) == RMax(0.0, Dist(current, target) - n as real * Speed)
  {
    if n > 0 {
      StepsDistance(current, target, n - 1);
    }
  }

  /** On exact channels, a hundred steps take black to white. */
  lemma HundredStepsBlackToWhite()
    ensures Steps(0.0, 1.0, 100) == 1.0
  {
    StepsDistance(0.0, 1.0, 100);
  }

  function Min(a: int, b: int): int {
    if b < a then b else a
  }

  function Max(a: int, b: int): int {
    if b > a then b else a
  }

  /**
   * One step of a channel as it is displayed, in bytes: `int(x * 255)` of
   * the stepped value truncates `k + 2.55` to `k + 2` going up and `k - 2.55`
   * to `k - 3` going down.
   */
  function ByteStep(k: int, j: int): (r: int)
    ensures k <= r <= j || j <= r <= k
  {
    if k < j then Min(k + 2, j) else Max(k - 3, j)
  }

  /** Stepping a channel `k / 255` toward `j / 255` and writing it as a byte gives `ByteStep(k, j)`. */
  lemma QuantizedStep(k: int, j: int)
    requires 0 <= k < 256 && 0 <= j < 256
    ensures ChannelByte(UpdateChannel(k as real / 255.0, j as real / 255.0)) == ByteStep(k, j)
  {
  }

  /** `n` displayed steps of a byte channel. */
  function ByteSteps(k: int, j: int, n: nat): int
    decreases n
  {
    if n == 0 then k else ByteSteps(ByteStep(k, j), j, n - 1)
  }

  /** After `n` displayed steps a channel has risen by `2n` or fallen by `3n`, clamped at the target. */
  lemma {:induction false} ByteStepsClosedForm(k: int, j: int, n: nat)
    ensures ByteSteps(k, j, n) == if k <= j then Min(k + 2 * n, j) else Max(k - 3 * n, j)
    decreases n
  {
    if n > 0 {
      ByteStepsClosedForm(ByteStep(k, j), j, n - 1);
    }
  }

  /** Displayed steps between two bytes stay bytes. */
  lemma ByteStepsRange(k: int, j: int, n: nat)
    requires 0 <= k < 256 && 0 <= j < 256
    ensures 0 <= ByteSteps(k, j, n) < 256
  {
    ByteStepsClosedForm(k, j, n);
  }

  /**
   * A channel rising from 00 toward ff, re-encoded every tick, takes 128
   * ticks, not a hundred: after a hundred its byte is 200.
   */
  lemma DisplayedBlackToWhite()
    ensures ByteSteps(0, 255, 100) == 200
    ensures ByteSteps(0, 255, 127) == 254 && ByteSteps(0, 255, 128) == 255
  {
    ByteStepsClosedForm(0, 255, 100);
    ByteStepsClosedForm(0, 255, 127);
    ByteStepsClosedForm(0, 255, 128);
  }

  /**
   * Toward a fixed target a channel rising from 00 reaches ff exactly from
   * tick 128 on, and one falling from ff reaches 00 exactly from tick 85 on,
   * its last step of three landing on the target.
   */
  lemma ChannelTicksToTarget(n: nat)
    ensures ByteSteps(0, 255, n) == 255 <==> n >= 128
    ensures ByteSteps(255, 0, n) == 0 <==> n >= 85
    ensures ByteSteps(255, 0, 84) == 3
  {
    ByteStepsClosedForm(0, 255, n);
    ByteStepsClosedForm(255, 0, n);
    ByteStepsClosedForm(255, 0, 84);
  }
}
