/**
 * The push-button task (components/button/button.c): it samples the button level, debounces each
 * change, classifies a release as a long or a short press by how many ticks the button was held,
 * and toggles the two process-wide flags `recording` and `paused`.
 */
module Button {
  import opened Common

  const DebounceMs: nat := 30
  const LongPressMs: nat := 500

  datatype Press = ShortPress | LongPress

  /** The recorder state the two flags stand for. */
  datatype RecorderState = Idle | Recording | Paused

  /**
   * The recorder's state table: a long press starts or stops recording (stopping from Paused too),
   * a short press pauses or resumes, and a short press while idle does nothing.
   */
  function Next(s: RecorderState, p: Press): RecorderState
  {
    match (s, p)
    case (Idle, LongPress) => Recording
    case (Idle, ShortPress) => Idle
    case (Recording, ShortPress) => Paused
    case (Paused, ShortPress) => Recording
    case (_, LongPress) => Idle
  }

  /** The two flags `s_recording` and `s_paused`. */
  datatype Flags = Flags(recording: bool, paused: bool) {
    /** The invariant the button task keeps: the recorder is paused only while it records. */
    predicate Valid() { paused ==> recording }

    function State(): RecorderState
      requires Valid()
    {
      if !recording then Idle else if paused then Paused else Recording
    }
  }

  /**
   * What one classified release does to the flags: a long press toggles `recording` and clears
   * `paused` when recording stops; a short press toggles `paused`, but only while recording.
   */
  function Apply(f: Flags, p: Press): (r: Flags)
    ensures f.Valid() ==> r.Valid() && r.State() == Next(f.State(), p)
    ensures p.LongPress? ==> r.recording == !f.recording && (!r.recording ==> !r.paused)
    ensures p.ShortPress? ==> r.recording == f.recording
    ensures p.ShortPress? && !f.recording ==> r == f
  {
    match p
    case LongPress =>
      var recording := !f.recording;
      Flags(recording, if recording then f.paused else false)
    case ShortPress =>
      if f.recording then Flags(true, !f.paused) else f
  }

  /** `pdMS_TO_TICKS(ms)` for a tick rate of `tickRateHz`. */
  function MsToTicks(ms: nat, tickRateHz: nat): nat
  {
    ms * tickRateHz / 1000
  }

  /** `xTaskGetTickCount() - press_tick` in the 32-bit unsigned `TickType_t`. */
  function Held(pressTick: nat, now: nat): (held: nat)
    requires pressTick < Uint32Modulus && now < Uint32Modulus
    ensures held < Uint32Modulus
    ensures pressTick <= now ==> held == now - pressTick
    ensures now < pressTick ==> held == now + Uint32Modulus - pressTick
  {
    (now - pressTick) % Uint32Modulus
  }

  /** A release held for at least the long-press threshold is a long press. */
  function Classify(held: nat, longPressTicks: nat): (p: Press)
    ensures p.LongPress? <==> held >= longPressTicks
  {
    if held >= longPressTicks then LongPress else ShortPress
  }

  /** A level change that survives the re-sample taken after the debounce delay. */
  datatype Sample = Sample(level: bool, resampled: bool, now: nat)

  /** The button task's state: its two locals and the two flags it owns. */
  class ButtonTask {
    const longPressTicks: nat
    var lastLevel: bool
    var pressTick: nat
    var recording: bool
    var paused: bool

    ghost predicate Valid()
      reads this
    {
      pressTick < Uint32Modulus && Current().Valid()
    }

    function Current(): Flags
      reads this
    {
      Flags(recording, paused)
    }

    /** Both flags start false; the button is released (high, with the pull-up). */
    constructor (tickRateHz: nat)
      ensures Valid()
      ensures lastLevel && pressTick == 0 && !recording && !paused
      ensures longPressTicks == MsToTicks(LongPressMs, tickRateHz)
    {
      longPressTicks := MsToTicks(LongPressMs, tickRateHz);
      lastLevel, pressTick := true, 0;
      recording, paused := false, false;
    }

    /**
     * One pass of the button task's loop: `level` is the first sample, `resampled` the sample taken after the
     * debounce delay, `now` the tick count read after it. Low is pressed, high is released.
     */
    method Step(level: bool, resampled: bool, now: nat)
      requires Valid() && now < Uint32Modulus
      modifies this
      ensures Valid()
      ensures level == old(lastLevel) || resampled == old(lastLevel) ==>
        lastLevel == old(lastLevel) && pressTick == old(pressTick) && Current() == old(Current())
      ensures level != old(lastLevel) && resampled != old(lastLevel) ==> lastLevel == resampled
      ensures level != old(lastLevel) && resampled != old(lastLevel) && !resampled ==>
        pressTick == now && Current() == old(Current())
      ensures level != old(lastLevel) && resampled != old(lastLevel) && resampled ==>
        pressTick == old(pressTick) &&
        Current() == Apply(old(Current()), Classify(Held(old(pressTick), now), longPressTicks))
    {
      if level != lastLevel {
        if resampled != lastLevel {
          lastLevel := resampled;
          if !resampled {
            pressTick := now;
          } else {
            var held := Held(pressTick, now);
            var next := Apply(Current(), Classify(held, longPressTicks));
            recording, paused := next.recording, next.paused;
          }
        }
      }
    }

    /** The button task's endless loop, over the samples it takes: `paused ==> recording` always holds. */
    method Run(samples: seq<Sample>)
      requires Valid()
      requires forall i :: 0 <= i < |samples| ==> samples[i].now < Uint32Modulus
      modifies this
      ensures Valid()
    {
      for i := 0 to |samples|
        invariant Valid()
      {
        Step(samples[i].level, samples[i].resampled, samples[i].now);
      }
    }

    /** `button_is_paused()`. */
    method IsPaused() returns (p: bool)
      ensures p == paused
    {
      p := paused;
    }

    /** `button_is_recording()`. */
    method IsRecording() returns (r: bool)
      ensures r == recording
    {
      r := recording;
    }
  }
}
