/**
  The arithmetic of the fade-out: how one colour channel moves towards its target in a frame,
  and where any number of frames takes it. Channels are stored unscaled.
*/
module Fade {
  import opened Words

  /** Each fade rate shifts right twice, by these powers of two. */
  function HighDivisor(rate: nat): nat
    requires 1 <= rate <= 7
    ensures HighDivisor(rate) >= 2
  {
    match rate
    case 1 => 2
    case 2 => 2
    case 3 => 2
    case 4 => 4
    case 5 => 8
    case 6 => 16
    case _ => 64
  }

  function LowDivisor(rate: nat): nat
    requires 1 <= rate <= 7
    ensures LowDivisor(rate) >= 4
  {
    match rate
    case 1 => 4
    case 2 => 8
    case _ => 256
  }

  /** What a frame adds to a channel that is delta away; the shifts round towards minus infinity. */
  function Change(delta: int, rate: nat): int
    requires 1 <= rate <= 7
  {
    if Abs(delta) < 3 then delta
    else delta / HighDivisor(rate) + delta / LowDivisor(rate)
  }

  /** One channel after a frame, cut down to a byte. */
  function Faded(c: uint8, target: uint8, rate: nat): uint8
    requires 1 <= rate <= 7
  {
    (c + Change(target - c, rate)) % 0x100
  }

  /** The channel is short of its target by too little for the shifts to see but too much to jump. */
  predicate Stuck(c: uint8, target: uint8, rate: nat)
    requires 1 <= rate <= 7
  {
    3 <= target - c < HighDivisor(rate)
  }

  /** A frame from black towards white, at each rate. */
  lemma FirstFrameFromBlack(rate: nat)
    requires 1 <= rate <= 7
    ensures Faded(0, 255, rate) == FullStep(rate)
    ensures Faded(255, 0, rate) == 255 - FullStep(rate) - 2
  {
    hide Faded;
    WholeWay(rate);
    FadeMovesTowardsTarget(0, 255, rate);
    FadeMovesTowardsTarget(255, 0, rate);
  }

  lemma WholeWay(rate: nat)
    requires 1 <= rate <= 7
    ensures Change(255, rate) == FullStep(rate) && Change(-255, rate) == -FullStep(rate) - 2
  {
  }

  /** How much of the whole way from black to white a frame goes at each rate; downwards it is 2 more. */
  function FullStep(rate: nat): int {
    match rate
    case 1 => 190
    case 2 => 158
    case 3 => 127
    case 4 => 63
    case 5 => 31
    case 6 => 15
    case _ => 3
  }

  /** The divisors are powers of two: the two right shifts of each rate. */
  lemma ShiftsOfRate(rate: nat)
    requires 1 <= rate <= 7
    ensures HighDivisor(rate) == PowerOfTwo([1, 1, 1, 2, 3, 4, 6][rate - 1])
    ensures LowDivisor(rate) == PowerOfTwo([2, 3, 8, 8, 8, 8, 8][rate - 1])
  {
    assert PowerOfTwo(1) == 2 && PowerOfTwo(2) == 4 && PowerOfTwo(3) == 8 && PowerOfTwo(4) == 16;
    assert PowerOfTwo(6) == 64;
    EighthPower();
  }

  /** The change never goes past the target, so a channel never wraps. */
  lemma ChangeDoesNotOvershoot(delta: int, rate: nat)
    requires 1 <= rate <= 7 && -255 <= delta <= 255
    ensures delta >= 0 ==> 0 <= Change(delta, rate) <= delta
    ensures delta <= 0 ==> delta <= Change(delta, rate) <= 0
    ensures Change(delta, rate) == 0 <==> delta == 0 || 3 <= delta < HighDivisor(rate)
    ensures delta >= 3 && HighDivisor(rate) >= 4 ==> delta - Change(delta, rate) >= 3
  {
    if delta >= 0 {
      ShareOf(delta, HighDivisor(rate));
      ShareOf(delta, LowDivisor(rate));
    } else {
      NegativeShareOf(delta, HighDivisor(rate));
      NegativeShareOf(delta, LowDivisor(rate));
    }
  }

  /** The part of a distance that a shift keeps. */
  lemma ShareOf(delta: nat, divisor: nat)
    requires divisor in {2, 4, 8, 16, 64, 256} && delta <= 255
    ensures 0 <= delta / divisor && divisor * (delta / divisor) <= delta
    ensures delta / divisor == 0 <==> delta < divisor
  {
    match divisor
    case 2 =>
    case 4 =>
    case 8 =>
    case 16 =>
    case 64 =>
    case _ =>
  }

  /** Below zero the rounding is away from zero. */
  lemma NegativeShareOf(delta: int, divisor: nat)
    requires divisor in {2, 4, 8, 16, 64, 256} && -255 <= delta < 0
    ensures delta / divisor < 0 && divisor * (delta / divisor) >= delta - (divisor - 1)
  {
    match divisor
    case 2 =>
    case 4 =>
    case 8 =>
    case 16 =>
    case 64 =>
    case _ =>
  }

  /** A frame moves a channel towards its target without reaching past it, unless it is stuck. */
  lemma FadeMovesTowardsTarget(c: uint8, target: uint8, rate: nat)
    requires 1 <= rate <= 7
    ensures Faded(c, target, rate) == c + Change(target - c, rate)
    ensures c <= target ==> c <= Faded(c, target, rate) <= target
    ensures c >= target ==> target <= Faded(c, target, rate) <= c
    ensures Faded(c, target, rate) == c <==> c == target || Stuck(c, target, rate)
  {
    ChangeDoesNotOvershoot(target - c, rate);
  }

  function FadedTimes(c: uint8, target: uint8, rate: nat, n: nat): uint8
    requires 1 <= rate <= 7
    decreases n
  {
    if n == 0 then c else FadedTimes(Faded(c, target, rate), target, rate, n - 1)
  }

  /** Within as many frames as the distance, a channel is at its target or stuck for good. */
  lemma {:induction false} FadeSettles(c: uint8, target: uint8, rate: nat, n: nat)
    requires 1 <= rate <= 7 && n >= Abs(target - c)
    ensures var last := FadedTimes(c, target, rate, n);
            && (last == target || Stuck(last, target, rate))
            && (c >= target ==> last == target)
    decreases n
  {
    if n > 0 {
      FadeMovesTowardsTarget(c, target, rate);
      var next := Faded(c, target, rate);
      if next == c {
        StaysPut(c, target, rate, n);
      } else {
        FadeSettles(next, target, rate, n - 1);
      }
    }
  }

  lemma {:induction false} StaysPut(c: uint8, target: uint8, rate: nat, n: nat)
    requires 1 <= rate <= 7 && Faded(c, target, rate) == c
    ensures FadedTimes(c, target, rate, n) == c
  {
    if n > 0 {
      StaysPut(c, target, rate, n - 1);
    }
  }

  /** From 3 or more below the target the slow rates never get within jumping distance. */
  lemma {:induction false} SlowRateStaysBelow(c: uint8, target: uint8, rate: nat, n: nat)
    requires 4 <= rate <= 7 && target - c >= 3
    ensures target - FadedTimes(c, target, rate, n) >= 3
    decreases n
  {
    if n > 0 {
      FadeMovesTowardsTarget(c, target, rate);
      ChangeDoesNotOvershoot(target - c, rate);
      SlowRateStaysBelow(Faded(c, target, rate), target, rate, n - 1);
    }
  }

  /** Exactly when repeated frames bring a channel to its target. */
  lemma FadeReachesTargetIff(c: uint8, target: uint8, rate: nat)
    requires 1 <= rate <= 7
    ensures (exists n: nat :: FadedTimes(c, target, rate, n) == target) <==> rate <= 3 || target - c < 3
  {
    if rate <= 3 || target - c < 3 {
      var n: nat := Abs(target - c);
      FadeSettles(c, target, rate, n);
      if rate > 3 && c < target {
        FadeMovesTowardsTarget(c, target, rate);
        assert FadedTimes(c, target, rate, 1) == FadedTimes(Faded(c, target, rate), target, rate, 0) == target;
      } else {
        assert FadedTimes(c, target, rate, n) == target;
      }
    } else {
      forall n: nat ensures FadedTimes(c, target, rate, n) != target {
        SlowRateStaysBelow(c, target, rate, n);
      }
    }
  }

  /** At the slowest rate a channel 5 below its target never moves. */
  lemma SlowFadeSticks(n: nat)
    ensures FadedTimes(0, 5, 7, n) == 0
  {
    FadeMovesTowardsTarget(0, 5, 7);
    StaysPut(0, 5, 7, n);
  }

  // ---- Rate 0 ----

  function HalvedTimes(c: uint8, n: nat): uint8
    decreases n
  {
    if n == 0 then c else HalvedTimes(c / 2, n - 1)
  }

  lemma {:induction false} HalvedTimesIsBlack(c: uint8, k: nat, n: nat)
    requires c < PowerOfTwo(k) && n >= k
    ensures HalvedTimes(c, n) == 0
    decreases n
  {
    if k > 0 {
      HalvedTimesIsBlack(c / 2, k - 1, n - 1);
    } else if n > 0 {
      HalvedTimesIsBlack(0, 0, n - 1);
    }
  }

  /** Halving turns every channel black after at most eight frames. */
  lemma EightHalvingsAreBlack(c: uint8, n: nat)
    requires n >= 8
    ensures HalvedTimes(c, n) == 0
  {
    EighthPower();
    HalvedTimesIsBlack(c, 8, n);
  }
}
