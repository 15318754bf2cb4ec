/** The debounce counter shared by components/button/button.c and
    components/esp-idf-button/button.c: every 10 ms the toggle timer samples
    a button's GPIO and moves a saturating counter one step towards the level
    read; the debounced level flips only when the counter reaches a limit. */
module Debounce {

  /** MAX_TOGGLE_VALUE: the counter's upper limit. */
  const MaxToggle: int := 4

  /** The counter, the debounced level, and whether this sample flipped it
      (in which case the toggle handler runs). */
  datatype Sampled = Sampled(value: int, lastHigh: bool, flipped: bool)

  /** One sample: `high` is whether the GPIO read 1. */
  function Sample(value: int, lastHigh: bool, high: bool): (r: Sampled)
    ensures 0 <= value <= MaxToggle ==> 0 <= r.value <= MaxToggle
    ensures 0 <= value <= MaxToggle && high ==> r.value == value + 1 || r.value == value == MaxToggle
    ensures 0 <= value <= MaxToggle && !high ==> r.value == value - 1 || r.value == value == 0
    ensures r.flipped <==> r.lastHigh != lastHigh
    ensures high ==> (r.lastHigh <==> lastHigh || r.value == MaxToggle)
    ensures !high ==> (r.lastHigh <==> lastHigh && r.value != 0)
  {
    if high then
      var v := if value + 1 < MaxToggle then value + 1 else MaxToggle;
      if v == MaxToggle && !lastHigh then Sampled(v, true, true) else Sampled(v, lastHigh, false)
    else
      var v := if value - 1 > 0 then value - 1 else 0;
      if v == 0 && lastHigh then Sampled(v, false, true) else Sampled(v, lastHigh, false)
  }

  /** The counter and level after a run of samples, oldest first. */
  function Run(value: int, lastHigh: bool, samples: seq<bool>): (r: Sampled)
    decreases |samples|
  {
    if |samples| == 0 then Sampled(value, lastHigh, false)
    else
      var s := Sample(value, lastHigh, samples[0]);
      Run(s.value, s.lastHigh, samples[1..])
  }

  /** The counter never leaves its range. */
  lemma {:induction false} RunInRange(value: int, lastHigh: bool, samples: seq<bool>)
    requires 0 <= value <= MaxToggle
    ensures 0 <= Run(value, lastHigh, samples).value <= MaxToggle
    decreases |samples|
  {
    if |samples| > 0 {
      var s := Sample(value, lastHigh, samples[0]);
      RunInRange(s.value, s.lastHigh, samples[1..]);
    }
  }

  /** A high glitch too short to carry the counter to its limit never
      registers as a press edge. */
  lemma {:induction false} ShortRiseIgnored(value: int, samples: seq<bool>)
    requires 0 <= value && value + |samples| < MaxToggle
    ensures !Run(value, false, samples).lastHigh
    decreases |samples|
  {
    if |samples| > 0 {
      var s := Sample(value, false, samples[0]);
      assert !s.lastHigh && s.value <= value + 1;
      ShortRiseIgnored(s.value, samples[1..]);
    }
  }

  /** A low glitch too short to carry the counter down to 0 never
      registers as a release edge. */
  lemma {:induction false} ShortDropIgnored(value: int, samples: seq<bool>)
    requires value <= MaxToggle && value - |samples| > 0
    ensures Run(value, true, samples).lastHigh
    decreases |samples|
  {
    if |samples| > 0 {
      var s := Sample(value, true, samples[0]);
      assert s.lastHigh && s.value >= value - 1;
      ShortDropIgnored(s.value, samples[1..]);
    }
  }

  /** Enough high samples in a row (at least one, and enough to carry the
      counter to its limit) settle the level high. */
  lemma {:induction false} SettlesHigh(value: int, lastHigh: bool, samples: seq<bool>)
    requires 0 <= value <= MaxToggle
    requires |samples| > 0 && |samples| >= MaxToggle - value
    requires forall k :: 0 <= k < |samples| ==> samples[k]
    ensures Run(value, lastHigh, samples).lastHigh
    ensures Run(value, lastHigh, samples).value == MaxToggle
    decreases |samples|
  {
    if |samples| > 0 {
      var s := Sample(value, lastHigh, samples[0]);
      if |samples| > 1 {
        SettlesHigh(s.value, s.lastHigh, samples[1..]);
      } else {
        assert samples[1..] == [];
      }
    }
  }

  /** Enough low samples in a row settle the level low. */
  lemma {:induction false} SettlesLow(value: int, lastHigh: bool, samples: seq<bool>)
    requires 0 <= value <= MaxToggle
    requires |samples| > 0 && |samples| >= value
    requires forall k :: 0 <= k < |samples| ==> !samples[k]
    ensures !Run(value, lastHigh, samples).lastHigh
    ensures Run(value, lastHigh, samples).value == 0
    decreases |samples|
  {
    if |samples| > 0 {
      var s := Sample(value, lastHigh, samples[0]);
      if |samples| > 1 {
        SettlesLow(s.value, s.lastHigh, samples[1..]);
      } else {
        assert samples[1..] == [];
      }
    }
  }
}
