/**
  The runtime state of a GPIO channel and the debounce filter of input channels, which runs
  on a millisecond clock that wraps at 2^32.
*/
module Debounce {
  import opened Words
  import opened GpioConfig

  datatype RuntimeChannel = RuntimeChannel(
    config: Channel,
    configured: bool,
    rawLevel: bool,
    stableRawLevel: bool,
    logicalLevel: bool,
    pendingRawLevel: bool,
    stable: bool,
    rawChangedAtMs: uint32,
    changedAtMs: uint32,
    sampledAtMs: uint32)

  function Reset(config: Channel): RuntimeChannel {
    RuntimeChannel(config, false, false, false, false, false, false, 0, 0, 0)
  }

  function LogicalFromRaw(raw: bool, inverted: bool): bool {
    if inverted then !raw else raw
  }

  /** All levels of a channel agree on one raw level. */
  function Settled(ch: RuntimeChannel, raw: bool): RuntimeChannel {
    ch.(rawLevel := raw, pendingRawLevel := raw, stableRawLevel := raw,
        logicalLevel := LogicalFromRaw(raw, ch.config.inverted), stable := true)
  }

  /** A channel right after it was configured, given what its pin reads. */
  function Configured(config: Channel, nowMs: uint32, reading: bool): RuntimeChannel {
    var ch := Reset(config).(sampledAtMs := nowMs, changedAtMs := nowMs, rawChangedAtMs := nowMs);
    if config.mode == MODE_DISABLED then ch
    else
      var raw := if config.mode == MODE_OUTPUT then LogicalFromRaw(config.initialOutput, config.inverted) else reading;
      Settled(ch, raw).(configured := true)
  }

  /** A configured output shows its initial level, an input what was read, each inverted on the pin if so configured. */
  lemma ConfiguredLevels(config: Channel, nowMs: uint32, reading: bool)
    ensures var ch := Configured(config, nowMs, reading);
            && ch.config == config && ch.configured == ch.stable == (config.mode != MODE_DISABLED)
            && ch.rawLevel == ch.pendingRawLevel == ch.stableRawLevel
            && ch.sampledAtMs == ch.changedAtMs == ch.rawChangedAtMs == nowMs
            && (config.mode == MODE_DISABLED ==> !ch.stableRawLevel && !ch.logicalLevel)
            && (config.mode != MODE_DISABLED ==> ch.logicalLevel == (ch.stableRawLevel != config.inverted))
            && (config.mode == MODE_OUTPUT ==> ch.logicalLevel == config.initialOutput)
            && (config.mode != MODE_DISABLED && config.mode != MODE_OUTPUT ==> ch.stableRawLevel == reading)
  {
  }

  function Elapsed(nowMs: uint32, thenMs: uint32): uint32 {
    ToUint32(nowMs - thenMs)
  }

  /** One sample of an input channel. */
  function Sampled(ch: RuntimeChannel, raw: bool, nowMs: uint32): RuntimeChannel {
    var seen := ch.(rawLevel := raw, sampledAtMs := nowMs);
    if raw != ch.pendingRawLevel then
      seen.(pendingRawLevel := raw, rawChangedAtMs := nowMs, stable := false)
    else if Elapsed(nowMs, ch.rawChangedAtMs) < ch.config.debounceMs then seen
    else if raw != ch.stableRawLevel then
      seen.(stableRawLevel := raw, logicalLevel := LogicalFromRaw(raw, ch.config.inverted), changedAtMs := nowMs,
          stable := true)
    else seen.(stable := true)
  }

  // ---- Runs of samples ----

  /** A reading at a true time, in milliseconds since power-on. */
  datatype Sample = Sample(t: nat, raw: bool)

  /** A channel configured at the first sample and sampled at the others. */
  function Run(config: Channel, samples: seq<Sample>): RuntimeChannel
    requires |samples| > 0
  {
    var last := samples[|samples| - 1];
    if |samples| == 1 then Configured(config, Clock(last.t), last.raw)
    else Sampled(Run(config, samples[..|samples| - 1]), last.raw, Clock(last.t))
  }

  ghost predicate InTimeOrder(samples: seq<Sample>) {
    forall i, j :: 0 <= i <= j < |samples| ==> samples[i].t <= samples[j].t
  }

  /** Where the final stretch of equal readings starts. */
  function StretchStart(samples: seq<Sample>): (j: nat)
    requires |samples| > 0
    ensures j < |samples|
    ensures forall k :: j <= k < |samples| ==> samples[k].raw == samples[|samples| - 1].raw
    ensures j > 0 ==> samples[j - 1].raw != samples[j].raw
  {
    var n := |samples| - 1;
    if n == 0 then 0
    else if samples[n - 1].raw != samples[n].raw then n
    else StretchStart(samples[..n])
  }

  /**
    What the filter is meant to compute, from the true times of all readings: a level is accepted
    at a reading that is not the first of its stretch and comes at least debounceMs after the
    first, as far as the wrapped clock can tell; otherwise the accepted level stays.
  */
  function Accepted(debounceMs: uint16, samples: seq<Sample>): bool
    requires |samples| > 0
  {
    var n := |samples| - 1;
    if n == 0 then samples[0].raw
    else if StretchStart(samples) < n && StretchAge(samples) >= debounceMs then samples[n].raw
    else Accepted(debounceMs, samples[..n])
  }

  /** The age of the final stretch on the wrapped clock. */
  function StretchAge(samples: seq<Sample>): uint32
    requires |samples| > 0
  {
    Clock(samples[|samples| - 1].t - samples[StretchStart(samples)].t)
  }

  lemma AgeIsAtMostTrueAge(samples: seq<Sample>)
    requires |samples| > 0 && InTimeOrder(samples)
    ensures StretchAge(samples) <= samples[|samples| - 1].t - samples[StretchStart(samples)].t
  {
    hide StretchStart, Clock;
    var j := StretchStart(samples);
    assert samples[j].t <= samples[|samples| - 1].t;
    ClockDifference(samples[j].t, samples[|samples| - 1].t);
  }

  /** The reading at which the level accepted now was accepted. */
  function LastChange(debounceMs: uint16, samples: seq<Sample>): (k: nat)
    requires |samples| > 0
    ensures k < |samples|
  {
    var n := |samples| - 1;
    if n == 0 then 0
    else if Accepted(debounceMs, samples) != Accepted(debounceMs, samples[..n]) then n
    else LastChange(debounceMs, samples[..n])
  }

  /** Some reading of the final stretch, not its first, found it old enough. */
  ghost predicate HasAged(debounceMs: uint16, samples: seq<Sample>)
    requires |samples| > 0
  {
    AgedBefore(debounceMs, samples, StretchStart(samples), |samples|)
  }

  /** Some reading after j and before end came at least debounceMs after j. */
  ghost predicate AgedBefore(debounceMs: uint16, samples: seq<Sample>, j: nat, end: nat)
    requires j < end <= |samples|
  {
    exists k :: j < k < end && AgeAt(samples, j, k) >= debounceMs
  }

  function AgeAt(samples: seq<Sample>, j: nat, k: nat): uint32
    requires j < |samples| && k < |samples|
  {
    Clock(samples[k].t - samples[j].t)
  }

  lemma AgedStep(debounceMs: uint16, samples: seq<Sample>, j: nat)
    requires j < |samples| - 1
    ensures AgedBefore(debounceMs, samples, j, |samples|) <==>
              AgedBefore(debounceMs, samples, j, |samples| - 1) || AgeAt(samples, j, |samples| - 1) >= debounceMs
  {
    hide AgeAt;
  }

  lemma AgedPrefix(debounceMs: uint16, samples: seq<Sample>, j: nat)
    requires j < |samples| - 1
    ensures AgedBefore(debounceMs, samples[..|samples| - 1], j, |samples| - 1) <==>
              AgedBefore(debounceMs, samples, j, |samples| - 1)
  {
    var n := |samples| - 1;
    assert forall k :: j < k < n ==> AgeAt(samples[..n], j, k) == AgeAt(samples, j, k);
    hide AgeAt;
  }

  lemma HasAgedStep(debounceMs: uint16, samples: seq<Sample>)
    requires |samples| > 1 && StretchStart(samples) < |samples| - 1
    ensures StretchStart(samples[..|samples| - 1]) == StretchStart(samples)
    ensures HasAged(debounceMs, samples) <==>
              HasAged(debounceMs, samples[..|samples| - 1]) || StretchAge(samples) >= debounceMs
  {
    var j := StretchStart(samples);
    SameStretch(samples);
    hide AgedBefore, StretchStart;
    AgedStep(debounceMs, samples, j);
    AgedPrefix(debounceMs, samples, j);
  }

  lemma SameStretch(samples: seq<Sample>)
    requires |samples| > 1 && StretchStart(samples) < |samples| - 1
    ensures StretchStart(samples[..|samples| - 1]) == StretchStart(samples)
  {
  }

  /** How the levels of a channel relate to what has been read so far. */
  ghost predicate Follows(ch: RuntimeChannel, config: Channel, samples: seq<Sample>)
    requires |samples| > 0
  {
    && ch.config == config && ch.configured
    && ch.stableRawLevel == Accepted(config.debounceMs, samples)
    && ch.logicalLevel == (ch.stableRawLevel != config.inverted)
    && ch.sampledAtMs == Clock(samples[|samples| - 1].t)
    && ch.changedAtMs == Clock(samples[LastChange(config.debounceMs, samples)].t)
    && ch.rawLevel == ch.pendingRawLevel == samples[|samples| - 1].raw
    && ch.rawChangedAtMs == Clock(samples[StretchStart(samples)].t)
    && (ch.stable <==> StretchStart(samples) == 0 || HasAged(config.debounceMs, samples))
    && (ch.stable ==> ch.pendingRawLevel == ch.stableRawLevel)
  }

  lemma SampleFollows(ch: RuntimeChannel, config: Channel, samples: seq<Sample>)
    requires |samples| > 1 && InTimeOrder(samples)
    requires Follows(ch, config, samples[..|samples| - 1])
    ensures Follows(Sampled(ch, samples[|samples| - 1].raw, Clock(samples[|samples| - 1].t)), config, samples)
  {
    hide Sampled, Follows;
    var n := |samples| - 1;
    if samples[n - 1].raw != samples[n].raw {
      NewLevelFollows(ch, config, samples);
    } else {
      SameLevelFollows(ch, config, samples);
    }
  }

  lemma NewLevelFollows(ch: RuntimeChannel, config: Channel, samples: seq<Sample>)
    requires |samples| > 1 && samples[|samples| - 2].raw != samples[|samples| - 1].raw
    requires Follows(ch, config, samples[..|samples| - 1])
    ensures Follows(Sampled(ch, samples[|samples| - 1].raw, Clock(samples[|samples| - 1].t)), config, samples)
  {
    assert StretchStart(samples) == |samples| - 1;
  }

  lemma SameLevelFollows(ch: RuntimeChannel, config: Channel, samples: seq<Sample>)
    requires |samples| > 1 && InTimeOrder(samples) && samples[|samples| - 2].raw == samples[|samples| - 1].raw
    requires Follows(ch, config, samples[..|samples| - 1])
    ensures Follows(Sampled(ch, samples[|samples| - 1].raw, Clock(samples[|samples| - 1].t)), config, samples)
  {
    var n := |samples| - 1;
    StretchGoesOn(config.debounceMs, samples);
    HasAgedStep(config.debounceMs, samples);
    hide HasAged, StretchStart, StretchAge, Accepted, LastChange, Clock;
    ClockDifference(samples[StretchStart(samples)].t, samples[n].t);
    assert Elapsed(Clock(samples[n].t), ch.rawChangedAtMs) == StretchAge(samples);
  }

  /** Another reading of the same level. */
  lemma StretchGoesOn(debounceMs: uint16, samples: seq<Sample>)
    requires |samples| > 1 && samples[|samples| - 2].raw == samples[|samples| - 1].raw
    ensures var n, j := |samples| - 1, StretchStart(samples);
            && j == StretchStart(samples[..n]) < n && samples[..n][j] == samples[j]
            && StretchAge(samples) == Clock(samples[n].t - samples[j].t)
            && Accepted(debounceMs, samples) ==
               (if StretchAge(samples) >= debounceMs then samples[n].raw else Accepted(debounceMs, samples[..n]))
            && LastChange(debounceMs, samples) ==
               (if Accepted(debounceMs, samples) != Accepted(debounceMs, samples[..n]) then n
                else LastChange(debounceMs, samples[..n]))
  {
  }

  /** After any run of samples the stored state refines the filter. */
  lemma {:induction false} RunRefinesFilter(config: Channel, samples: seq<Sample>)
    requires |samples| > 0 && config.mode == MODE_INPUT && InTimeOrder(samples)
    ensures Follows(Run(config, samples), config, samples)
  {
    var n := |samples| - 1;
    if n > 0 {
      RunRefinesFilter(config, samples[..n]);
      SampleFollows(Run(config, samples[..n]), config, samples);
    }
  }

  lemma {:induction false} FirstStretchAccepted(debounceMs: uint16, samples: seq<Sample>)
    requires |samples| > 0 && StretchStart(samples) == 0
    ensures Accepted(debounceMs, samples) == samples[0].raw
  {
    if |samples| > 1 {
      FirstStretchAccepted(debounceMs, samples[..|samples| - 1]);
    }
  }

  /**
    Safety: the accepted level changes only at a sample that ends a stretch of at least two
    equal readings of the new level, taken over at least debounceMs of true time.
  */
  lemma ChangeNeedsFullStretch(debounceMs: uint16, samples: seq<Sample>)
    requires |samples| > 1 && InTimeOrder(samples)
    requires Accepted(debounceMs, samples) != Accepted(debounceMs, samples[..|samples| - 1])
    ensures var n, j := |samples| - 1, StretchStart(samples);
            && j < n
            && samples[n].t - samples[j].t >= debounceMs
            && (forall k :: j <= k <= n ==> samples[k].raw == Accepted(debounceMs, samples))
  {
    AgeIsAtMostTrueAge(samples);
  }

  /** Readings i to end form a pulse away from the level accepted before. */
  ghost predicate Pulse(debounceMs: uint16, samples: seq<Sample>, i: nat, end: nat) {
    && 0 < i <= end < |samples|
    && var level := Accepted(debounceMs, samples[..i]);
       && samples[i - 1].raw == level
       && (forall k :: i <= k <= end ==> samples[k].raw != level)
       && (forall k :: end < k < |samples| ==> samples[k].raw == level)
  }

  /** While a pulse lasts its stretch starts with it. */
  lemma {:induction false} PulseStretch(debounceMs: uint16, samples: seq<Sample>, i: nat)
    requires |samples| > 0 && Pulse(debounceMs, samples, i, |samples| - 1)
    ensures StretchStart(samples) == i
    decreases |samples|
  {
    var n := |samples| - 1;
    if i < n {
      PulsePrefix(debounceMs, samples, i, n);
      PulseStretch(debounceMs, samples[..n], i);
    }
  }

  lemma PulsePrefix(debounceMs: uint16, samples: seq<Sample>, i: nat, end: nat)
    requires i < |samples| - 1 && Pulse(debounceMs, samples, i, end)
    ensures var n := |samples| - 1; Pulse(debounceMs, samples[..n], i, if end < n then end else n - 1)
    ensures samples[..|samples| - 1][..i] == samples[..i]
  {
    hide Accepted;
    assert samples[..|samples| - 1][..i] == samples[..i];
  }

  /** A young pulse does not change the accepted level in its last reading. */
  lemma PulseReading(debounceMs: uint16, samples: seq<Sample>, i: nat)
    requires InTimeOrder(samples) && |samples| > 1 && Pulse(debounceMs, samples, i, |samples| - 1)
    requires samples[|samples| - 1].t - samples[i].t < debounceMs
    ensures Accepted(debounceMs, samples) == Accepted(debounceMs, samples[..|samples| - 1])
  {
    PulseStretch(debounceMs, samples, i);
    AgeIsAtMostTrueAge(samples);
  }

  lemma {:induction false} PulseNotAccepted(debounceMs: uint16, samples: seq<Sample>, i: nat)
    requires InTimeOrder(samples) && |samples| > 0 && Pulse(debounceMs, samples, i, |samples| - 1)
    requires samples[|samples| - 1].t - samples[i].t < debounceMs
    ensures Accepted(debounceMs, samples) == Accepted(debounceMs, samples[..i])
    decreases |samples|
  {
    hide Accepted, StretchStart, StretchAge;
    var n := |samples| - 1;
    PulseReading(debounceMs, samples, i);
    if i < n {
      PulsePrefix(debounceMs, samples, i, n);
      assert samples[n - 1].t <= samples[n].t;
      PulseNotAccepted(debounceMs, samples[..n], i);
    }
  }

  /** A reading of the accepted level leaves it. */
  lemma SameLevelStays(debounceMs: uint16, samples: seq<Sample>)
    requires |samples| > 1
    requires samples[|samples| - 1].raw == Accepted(debounceMs, samples[..|samples| - 1])
    ensures Accepted(debounceMs, samples) == Accepted(debounceMs, samples[..|samples| - 1])
  {
  }

  /** A pulse whose readings span less than debounceMs never shows, while it lasts or later. */
  lemma {:induction false} ShortPulseNeverShows(debounceMs: uint16, samples: seq<Sample>, i: nat, end: nat)
    requires InTimeOrder(samples) && Pulse(debounceMs, samples, i, end)
    requires samples[end].t - samples[i].t < debounceMs
    ensures Accepted(debounceMs, samples) == Accepted(debounceMs, samples[..i])
    decreases |samples|
  {
    hide Accepted;
    var n := |samples| - 1;
    if n == end {
      PulseNotAccepted(debounceMs, samples, i);
    } else {
      PulsePrefix(debounceMs, samples, i, end);
      ShortPulseNeverShows(debounceMs, samples[..n], i, end);
      SameLevelStays(debounceMs, samples);
    }
  }

  /** No two successive samples are more than gap apart. */
  ghost predicate SampledWithin(samples: seq<Sample>, gap: nat) {
    forall k :: 0 < k < |samples| ==> samples[k].t - samples[k - 1].t <= gap
  }

  /**
    Liveness: once a level has been read over debounceMs of true time it is the accepted one,
    provided debounceMs and one sampling gap together do not wrap the clock.
  */
  lemma {:induction false} HeldLevelIsAdopted(debounceMs: uint16, samples: seq<Sample>, gap: nat)
    requires |samples| > 1 && InTimeOrder(samples)
    requires SampledWithin(samples, gap) && debounceMs + gap < 0x1_0000_0000
    requires StretchStart(samples) < |samples| - 1
    requires samples[|samples| - 1].t - samples[StretchStart(samples)].t >= debounceMs
    ensures Accepted(debounceMs, samples) == samples[|samples| - 1].raw
    decreases |samples|
  {
    var n, j := |samples| - 1, StretchStart(samples);
    var age := samples[n].t - samples[j].t;
    if age < 0x1_0000_0000 {
      assert StretchAge(samples) == age;
    } else {
      assert samples[n].t - samples[n - 1].t <= gap;
      assert StretchStart(samples[..n]) == j;
      HeldLevelIsAdopted(debounceMs, samples[..n], gap);
    }
  }

  // ---- The level that readers of a channel get ----

  /** The logical level changes only at the end of a full stretch of readings that stand for the new one. */
  lemma LogicalChangeNeedsFullStretch(config: Channel, samples: seq<Sample>)
    requires |samples| > 1 && config.mode == MODE_INPUT && InTimeOrder(samples)
    requires Run(config, samples).logicalLevel != Run(config, samples[..|samples| - 1]).logicalLevel
    ensures var n, j := |samples| - 1, StretchStart(samples);
            && j < n
            && samples[n].t - samples[j].t >= config.debounceMs
            && (forall k :: j <= k <= n ==>
                (samples[k].raw != config.inverted) == Run(config, samples).logicalLevel)
  {
    hide Run, Accepted;
    RunRefinesFilter(config, samples);
    RunRefinesFilter(config, samples[..|samples| - 1]);
    ChangeNeedsFullStretch(config.debounceMs, samples);
  }

  /** A short pulse never shows in the logical level. */
  lemma LogicalIgnoresShortPulse(config: Channel, samples: seq<Sample>, i: nat, end: nat)
    requires config.mode == MODE_INPUT && InTimeOrder(samples) && Pulse(config.debounceMs, samples, i, end)
    requires samples[end].t - samples[i].t < config.debounceMs
    ensures Run(config, samples).logicalLevel == Run(config, samples[..i]).logicalLevel
  {
    hide Run, Accepted;
    RunRefinesFilter(config, samples);
    RunRefinesFilter(config, samples[..i]);
    ShortPulseNeverShows(config.debounceMs, samples, i, end);
  }

  /** A held level becomes the logical one. */
  lemma LogicalAdoptsHeldLevel(config: Channel, samples: seq<Sample>, gap: nat)
    requires |samples| > 1 && config.mode == MODE_INPUT && InTimeOrder(samples)
    requires SampledWithin(samples, gap) && config.debounceMs + gap < 0x1_0000_0000
    requires StretchStart(samples) < |samples| - 1
    requires samples[|samples| - 1].t - samples[StretchStart(samples)].t >= config.debounceMs
    ensures Run(config, samples).logicalLevel == (samples[|samples| - 1].raw != config.inverted)
  {
    hide Run, Accepted;
    RunRefinesFilter(config, samples);
    HeldLevelIsAdopted(config.debounceMs, samples, gap);
  }
}
