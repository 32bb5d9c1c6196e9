/**
  When the effect engine draws a frame: each active segment's runtime holds the reading of the
  millisecond clock after which its next frame is due, and the clock wraps.
*/
module EffectTiming {
  import opened Words
  import opened Segments
  import opened ActiveSegments

  const SPEED_MIN: uint16 := 2

  /** One frame of an effect on a segment: its runtime afterwards and the delay it asks for. */
  type Effect = (uint8, Runtime) -> (Runtime, uint16)

  function Waits(delay: uint16): uint16 {
    if delay > SPEED_MIN then delay else SPEED_MIN
  }

  /** The wait is the shortest that is at least the delay and at least two milliseconds. */
  lemma WaitIsLeast(delay: uint16, wait: nat)
    ensures wait >= Waits(delay) <==> wait >= delay && wait >= 2
  {
  }

  predicate Due(rt: Runtime, now: uint32, triggered: bool) {
    now > rt.nextTime || triggered
  }

  /** A segment's runtime after a pass. */
  function Passed(seg: uint8, rt: Runtime, now: uint32, triggered: bool, effect: Effect): Runtime {
    var cleared := rt.(frame := false, cycle := false);
    if !Due(rt, now, triggered) then cleared
    else
      var (drawn, delay) := effect(seg, cleared.(frame := true));
      drawn.(nextTime := ToUint32(now + Waits(delay)), calls := ToUint32(drawn.calls + 1))
  }

  /** All runtimes after a pass; those of free slots stay. */
  function AllPassed(slots: seq<uint8>, runtimes: seq<Runtime>, now: uint32, triggered: bool, effect: Effect)
    : (r: seq<Runtime>)
    requires |slots| == |runtimes|
    ensures |r| == |runtimes|
  {
    seq(|slots|, i requires 0 <= i < |slots| && |slots| == |runtimes| =>
      if slots[i] == INACTIVE_SEGMENT then runtimes[i] else Passed(slots[i], runtimes[i], now, triggered, effect))
  }

  predicate DueIn(slots: seq<uint8>, runtimes: seq<Runtime>, now: uint32, triggered: bool, i: nat)
    requires |slots| == |runtimes|
  {
    i < |slots| && slots[i] != INACTIVE_SEGMENT && Due(runtimes[i], now, triggered)
  }

  /** Free slots, those with number 255, are left alone; the others draw once the clock is past their deadline. */
  lemma SlotsAre(slots: seq<uint8>, runtimes: seq<Runtime>, now: uint32, triggered: bool, effect: Effect, i: nat)
    requires |slots| == |runtimes| && i < |slots|
    ensures slots[i] == 255 ==> AllPassed(slots, runtimes, now, triggered, effect)[i] == runtimes[i]
    ensures slots[i] != 255 ==>
              AllPassed(slots, runtimes, now, triggered, effect)[i] ==
              Passed(slots[i], runtimes[i], now, triggered, effect)
    ensures DueIn(slots, runtimes, now, triggered, i) <==>
              slots[i] != 255 && (now > runtimes[i].nextTime || triggered)
  {
  }

  class EffectService {
    const segments: ActiveSegments
    var running: bool
    var triggered: bool

    constructor (segments: ActiveSegments)
      ensures this.segments == segments && !running && !triggered
    {
      this.segments := segments;
      running, triggered := false, false;
    }

    /** One pass of the service loop; a frame is shown if any segment drew one. */
    method Service(now: uint32, effect: Effect) returns (doShow: bool)
      requires segments.Valid()
      modifies this`triggered, segments.segmentRuntimes
      ensures var slots, before := segments.activeSegments[..], old(segments.segmentRuntimes[..]);
              segments.segmentRuntimes[..] ==
              if old(running || triggered) then AllPassed(slots, before, now, old(triggered), effect) else before
      ensures doShow <==> old(running || triggered) && exists i: nat ::
                DueIn(segments.activeSegments[..], old(segments.segmentRuntimes[..]), now, old(triggered), i)
      ensures !triggered
    {
      doShow := false;
      if !running && !triggered {
        return;
      }
      ghost var slots, before := segments.activeSegments[..], segments.segmentRuntimes[..];
      ghost var after := AllPassed(slots, before, now, triggered, effect);
      for i := 0 to segments.activeSegments.Length
        invariant triggered == old(triggered)
        invariant forall k :: 0 <= k < i ==> segments.segmentRuntimes[k] == after[k]
        invariant forall k :: i <= k < |before| ==> segments.segmentRuntimes[k] == before[k]
        invariant doShow <==> exists k: nat :: k < i && DueIn(slots, before, now, triggered, k)
      {
        ghost var shown := doShow;
        if segments.activeSegments[i] != INACTIVE_SEGMENT {
          doShow := ServiceSlot(i, now, effect, doShow);
        }
        assert doShow <==> shown || DueIn(slots, before, now, triggered, i);
      }
      triggered := false;
    }

    method ServiceSlot(i: nat, now: uint32, effect: Effect, shown: bool) returns (doShow: bool)
      requires segments.Valid() && i < segments.activeSegments.Length
      modifies segments.segmentRuntimes
      ensures segments.segmentRuntimes[..] ==
                old(segments.segmentRuntimes[..])[i := Passed(segments.activeSegments[i],
                                                              old(segments.segmentRuntimes[i]), now, triggered, effect)]
      ensures doShow == (shown || Due(old(segments.segmentRuntimes[i]), now, triggered))
    {
      var rts := segments.segmentRuntimes;
      doShow := shown;
      rts[i] := rts[i].(frame := false, cycle := false);
      if now > rts[i].nextTime || triggered {
        rts[i] := rts[i].(frame := true);
        doShow := true;
        var (drawn, delay) := effect(segments.activeSegments[i], rts[i]);
        rts[i] := drawn.(nextTime := ToUint32(now + Waits(delay)), calls := ToUint32(drawn.calls + 1));
      }
    }
  }

  // ---- On the true clock ----

  const WORD := 0x1_0000_0000

  /** How often the clock has wrapped. */
  function Turn(t: nat): nat {
    t / WORD
  }

  /** A frame drawn at t0 makes the next one due on the clock at t. */
  predicate DueAt(t0: nat, delay: uint16, t: nat) {
    Clock(t) > ToUint32(Clock(t0) + Waits(delay))
  }

  lemma TurnsOf(t: nat)
    ensures t == WORD * Turn(t) + Clock(t)
  {
  }

  lemma TurnIsUnique(t: nat, turn: int, clock: int)
    requires 0 <= clock < WORD && t == WORD * turn + clock
    ensures Turn(t) == turn && Clock(t) == clock
  {
    RemainderIsUnique(t, WORD, turn, clock);
  }

  lemma DeadlineOnClock(t0: nat, delay: uint16)
    ensures ToUint32(Clock(t0) + Waits(delay)) == Clock(t0 + Waits(delay))
    ensures Turn(t0 + Waits(delay)) == Turn(t0) + if Clock(t0) + Waits(delay) < WORD then 0 else 1
  {
    var sum := Clock(t0) + Waits(delay);
    TurnsOf(t0);
    if sum < WORD {
      TurnIsUnique(t0 + Waits(delay), Turn(t0), sum);
    } else {
      TurnIsUnique(t0 + Waits(delay), Turn(t0) + 1, sum - WORD);
    }
  }

  /**
    In less than a turn of the clock after a frame, a pass draws the next one if and only if more than
    the delay has gone by, exactly when the pass is on the same turn of the clock as the time to draw.
  */
  lemma DueOnTimeIff(t0: nat, delay: uint16, t: nat)
    requires t0 <= t < t0 + WORD
    ensures (DueAt(t0, delay, t) <==> t > t0 + Waits(delay)) <==> Turn(t) == Turn(t0 + Waits(delay))
  {
    DeadlineOnClock(t0, delay);
    TurnsOf(t0);
    TurnsOf(t);
    TurnsOf(t0 + Waits(delay));
  }

  // ---- Whole runs of passes ----

  /** The runtime of a segment after passes at these times. */
  function RunPasses(seg: uint8, rt: Runtime, times: seq<nat>, effect: Effect): Runtime {
    if times == [] then rt
    else
      var n := |times| - 1;
      Passed(seg, RunPasses(seg, rt, times[..n], effect), Clock(times[n]), false, effect)
  }

  /** The effect leaves the bookkeeping of frames to the service. */
  ghost predicate KeepsBooks(effect: Effect) {
    forall seg, rt :: var after := effect(seg, rt).0; after.calls == rt.calls && after.frame == rt.frame
  }

  function FramesDrawn(seg: uint8, rt: Runtime, times: seq<nat>, effect: Effect): nat {
    if times == [] then 0
    else
      var n := |times| - 1;
      FramesDrawn(seg, rt, times[..n], effect) + if DrawsAt(seg, rt, times, effect, n) then 1 else 0
  }

  /** The call counter counts the frames, and the frame flag says whether the last pass drew one. */
  lemma {:induction false} FramesAreCounted(seg: uint8, rt: Runtime, times: seq<nat>, effect: Effect)
    requires KeepsBooks(effect)
    ensures var after := RunPasses(seg, rt, times, effect);
            && after.calls == (rt.calls + FramesDrawn(seg, rt, times, effect)) % WORD
            && (times != [] ==> (after.frame <==> DrawsAt(seg, rt, times, effect, |times| - 1)))
  {
    if times != [] {
      var n := |times| - 1;
      FramesAreCounted(seg, rt, times[..n], effect);
      var before := RunPasses(seg, rt, times[..n], effect);
      var drawn := effect(seg, before.(frame := true, cycle := false)).0;
      assert drawn.calls == before.calls && drawn.frame;
      NextCount(rt.calls + FramesDrawn(seg, rt, times[..n], effect));
    }
  }

  lemma NextCount(x: nat)
    ensures ToUint32(x % WORD + 1) == (x + 1) % WORD
  {
  }

  /** A frame sets the next deadline by the delay its effect asks for; a pass without one only clears the flags. */
  lemma FrameSetsDeadline(seg: uint8, rt: Runtime, now: uint32, triggered: bool, effect: Effect)
    ensures var after := Passed(seg, rt, now, triggered, effect);
            if now > rt.nextTime || triggered then
              var (drawn, delay) := effect(seg, rt.(frame := true, cycle := false));
              && after.nextTime == (now + (if delay > 2 then delay else 2)) % WORD
              && after == drawn.(nextTime := after.nextTime, calls := after.calls)
            else
              && !after.frame && !after.cycle && after.nextTime == rt.nextTime && after.calls == rt.calls
              && after.step == rt.step && after.auxParam == rt.auxParam && after.auxParam3 == rt.auxParam3
  {
  }

  predicate DrawsAt(seg: uint8, rt: Runtime, times: seq<nat>, effect: Effect, k: nat)
    requires k < |times|
  {
    Due(RunPasses(seg, rt, times[..k], effect), Clock(times[k]), false)
  }

  /** The first frame of a run of passes is drawn in pass j. */
  ghost predicate FirstDrawnAt(seg: uint8, rt: Runtime, times: seq<nat>, effect: Effect, j: nat)
    requires j < |times|
  {
    DrawsAt(seg, rt, times, effect, j) && forall k: nat :: k < j ==> !DrawsAt(seg, rt, times, effect, k)
  }

  lemma {:induction false} WaitingKeepsDeadline(seg: uint8, rt: Runtime, times: seq<nat>, effect: Effect, j: nat)
    requires j <= |times| && forall k: nat :: k < j ==> !DrawsAt(seg, rt, times, effect, k)
    ensures RunPasses(seg, rt, times[..j], effect).nextTime == rt.nextTime
  {
    if j > 0 {
      assert times[..j][..j - 1] == times[..j - 1];
      WaitingKeepsDeadline(seg, rt, times, effect, j - 1);
      assert !DrawsAt(seg, rt, times, effect, j - 1);
    }
  }

  /**
    After a frame at t0, the next frame of a run of passes is drawn in the first pass later than the delay
    exactly when all passes up to that one are on the turn of the clock on which the frame is due.
  */
  lemma {:induction false} NextFrameOnTimeIff(seg: uint8, rt: Runtime, t0: nat, delay: uint16, times: seq<nat>,
      effect: Effect, j: nat)
    requires rt.nextTime == ToUint32(Clock(t0) + Waits(delay))
    requires j < |times| && forall k: nat :: k <= j ==> t0 <= times[k] < t0 + WORD
    requires forall k: nat :: k <= j ==> (times[k] > t0 + Waits(delay) <==> k == j)
    ensures FirstDrawnAt(seg, rt, times, effect, j) <==>
              forall k: nat :: k <= j ==> Turn(times[k]) == Turn(t0 + Waits(delay))
  {
    hide Clock, Turn, Waits, RunPasses;
    if forall k: nat :: k <= j ==> Turn(times[k]) == Turn(t0 + Waits(delay)) {
      NoneDrawnBefore(seg, rt, t0, delay, times, effect, j);
      WaitingKeepsDeadline(seg, rt, times, effect, j);
      DueOnTimeIff(t0, delay, times[j]);
    }
    if FirstDrawnAt(seg, rt, times, effect, j) {
      forall k: nat | k <= j ensures Turn(times[k]) == Turn(t0 + Waits(delay)) {
        WaitingKeepsDeadline(seg, rt, times, effect, k);
        DueOnTimeIff(t0, delay, times[k]);
        assert DrawsAt(seg, rt, times, effect, k) <==> k == j;
      }
    }
  }

  lemma {:induction false} NoneDrawnBefore(seg: uint8, rt: Runtime, t0: nat, delay: uint16, times: seq<nat>,
      effect: Effect, j: nat)
    requires rt.nextTime == ToUint32(Clock(t0) + Waits(delay))
    requires j <= |times| && forall k: nat :: k < j ==> t0 <= times[k] <= t0 + Waits(delay)
    requires forall k: nat :: k < j ==> Turn(times[k]) == Turn(t0 + Waits(delay))
    ensures forall k: nat :: k < j ==> !DrawsAt(seg, rt, times, effect, k)
  {
    hide Clock, Turn, RunPasses;
    if j > 0 {
      NoneDrawnBefore(seg, rt, t0, delay, times, effect, j - 1);
      WaitingKeepsDeadline(seg, rt, times, effect, j - 1);
      DueOnTimeIff(t0, delay, times[j - 1]);
    }
  }

  /**
    A frame that falls due after the reading two milliseconds before the wrap, with no pass in between, is not
    drawn for 49 days, however many passes there are.
  */
  lemma {:induction false} WrapFreezesEffect(seg: uint8, rt: Runtime, times: seq<nat>, effect: Effect)
    requires rt.nextTime == ToUint32(Clock(WORD - 4) + Waits(SPEED_MIN))
    requires forall k :: 0 <= k < |times| ==> WORD <= times[k] <= 2 * WORD - 2
    ensures forall k: nat :: k < |times| ==> !DrawsAt(seg, rt, times, effect, k)
  {
    if times != [] {
      var n := |times| - 1;
      WrapFreezesEffect(seg, rt, times[..n], effect);
      forall k: nat | k < n ensures !DrawsAt(seg, rt, times, effect, k) {
        assert times[..n][..k] == times[..k];
        assert !DrawsAt(seg, rt, times[..n], effect, k);
      }
      WaitingKeepsDeadline(seg, rt, times, effect, n);
      TurnIsUnique(times[n], 1, times[n] - WORD);
    }
  }
}
