/**
  How the frame-by-frame effects advance their counters, and closed forms for where they are
  after any number of frames on a segment of any length.
*/
module EffectSteps {
  import opened Words

  /** n reduced modulo period, by counting. */
  function Phase(n: nat, period: nat): (r: nat)
    requires period > 0
    ensures r < period
  {
    if n == 0 then 0
    else if Phase(n - 1, period) == period - 1 then 0
    else Phase(n - 1, period) + 1
  }

  lemma {:induction false} PhaseIsRemainder(n: nat, period: nat) returns (q: nat)
    requires period > 0
    ensures n == period * q + Phase(n, period) && Phase(n, period) == n % period
  {
    if n == 0 {
      q := 0;
    } else {
      q := PhaseIsRemainder(n - 1, period);
      if Phase(n, period) == 0 {
        assert period * (q + 1) == period * q + period;
        q := q + 1;
      }
    }
    RemainderIsUnique(n, period, q, Phase(n, period));
  }

  /** Up to top and back down, over a period of 2 * top. */
  function Triangle(phase: nat, top: nat): int {
    if phase <= top then phase else 2 * top - phase
  }

  // ---- Filling up ----

  /** The drop's position, the pixels already filled, and which colour is the filling one. */
  datatype Filler = Filler(step: uint32, filled: uint16, swapped: bool)

  ghost predicate FillerValid(f: Filler, length: nat) {
    f.filled <= length && if f.filled < length then f.step < length - f.filled else f.step == 0
  }

  /** A full glass is emptied before the next frame is drawn. */
  function Emptied(f: Filler, length: nat): Filler {
    if f.filled >= length then f.(filled := 0, swapped := !f.swapped) else f
  }

  function FillerNext(f: Filler, length: uint16): Filler
    requires FillerValid(f, length) && length > 0
  {
    var e := Emptied(f, length);
    if e.step + 1 >= length - e.filled then e.(step := 0, filled := e.filled + 1) else e.(step := e.step + 1)
  }

  lemma FillerStaysValid(f: Filler, length: uint16)
    requires FillerValid(f, length) && length > 0
    ensures FillerValid(FillerNext(f, length), length)
  {
  }

  /** The state after n frames from a reset. */
  function FillerAfter(n: nat, length: uint16): (f: Filler)
    requires length > 0
    ensures FillerValid(f, length)
  {
    if n == 0 then Filler(0, 0, false)
    else
      FillerStaysValid(FillerAfter(n - 1, length), length);
      FillerNext(FillerAfter(n - 1, length), length)
  }

  /** Frames it takes to fill k pixels: length + (length - 1) + ... */
  ghost function FramesToFill(length: nat, k: nat): nat
    requires k <= length
  {
    if k == 0 then 0 else FramesToFill(length, k - 1) + (length - (k - 1))
  }

  lemma {:induction false} FramesClosedForm(length: nat, k: nat)
    requires k <= length
    ensures 2 * FramesToFill(length, k) == 2 * (k * length) - k * (k - 1)
  {
    if k > 0 {
      FramesClosedForm(length, k - 1);
      assert k * length == (k - 1) * length + length;
      assert k * (k - 1) == (k - 1) * (k - 2) + 2 * (k - 1);
    }
  }

  lemma {:induction false} FramesGrow(length: nat, j: nat, k: nat)
    requires j <= k <= length
    ensures FramesToFill(length, j) + (k - j) <= FramesToFill(length, k)
  {
    if j < k {
      FramesGrow(length, j, k - 1);
    }
  }

  /** Frames since the glass was last empty. */
  ghost function Progress(f: Filler, length: nat): nat
    requires f.filled <= length
  {
    FramesToFill(length, f.filled) + f.step
  }

  lemma FullIffAllFrames(f: Filler, length: uint16)
    requires FillerValid(f, length)
    ensures Progress(f, length) <= FramesToFill(length, length)
    ensures f.filled == length <==> Progress(f, length) == FramesToFill(length, length)
  {
    if f.filled < length {
      FramesGrow(length, f.filled + 1, length);
    }
  }

  /** A frame makes one unit of progress, or the first one of a new fill with the colours swapped. */
  lemma ProgressStep(f: Filler, length: uint16)
    requires length > 0 && FillerValid(f, length)
    ensures FillerValid(FillerNext(f, length), length)
    ensures f.filled < length ==>
              Progress(FillerNext(f, length), length) == Progress(f, length) + 1
                  && FillerNext(f, length).swapped == f.swapped
    ensures f.filled == length ==>
              Progress(FillerNext(f, length), length) == 1 && FillerNext(f, length).swapped != f.swapped
  {
    assert FramesToFill(length, 1) == length by { assert FramesToFill(length, 0) == 0; }
  }

  /** Each fill takes the same number of frames: after n frames, k whole fills and some progress. */
  lemma {:induction false} FillerPosition(n: nat, length: uint16) returns (k: nat)
    requires length > 0 && n > 0
    ensures var f := FillerAfter(n, length);
            n == FramesToFill(length, length) * k + Progress(f, length)
            && 1 <= Progress(f, length) && f.swapped == (k % 2 == 1)
  {
    var total := FramesToFill(length, length);
    var before := FillerAfter(n - 1, length);
    ProgressStep(before, length);
    if n == 1 {
      k := 0;
    } else {
      k := FillerPosition(n - 1, length);
      FullIffAllFrames(before, length);
      if before.filled == length {
        assert total * (k + 1) == total * k + total;
        k := k + 1;
      }
    }
  }

  /** The glass is full after exactly the multiples of length * (length + 1) / 2 frames. */
  lemma FillerFullIff(n: nat, length: uint16)
    requires length > 0 && n > 0
    ensures var total := length * (length + 1) / 2;
            total > 0 && (FillerAfter(n, length).filled == length <==> n % total == 0)
  {
    var total := FramesToFill(length, length);
    FramesClosedForm(length, length);
    assert 2 * (length * length) - length * (length - 1) == length * (length + 1);
    FramesGrow(length, 0, length);
    var f := FillerAfter(n, length);
    var k := FillerPosition(n, length);
    FullIffAllFrames(f, length);
    if f.filled == length {
      assert total * (k + 1) == total * k + total;
      RemainderIsUnique(n, total, k + 1, 0);
    } else {
      RemainderIsUnique(n, total, k, Progress(f, length));
    }
  }

  // ---- Bouncing ----

  /** The position of a scanning block and whether it is on its way back. */
  datatype Bounce = Bounce(step: uint32, back: bool)

  function ScanNext(b: Bounce, length: uint16, size: uint8): Bounce {
    var step := ToUint32(b.step + if b.back then -1 else 1);
    Bounce(step, if step >= ToUint16(length - size) then true else b.back && step != 0)
  }

  function ScanAfter(n: nat, length: uint16, size: uint8): Bounce {
    if n == 0 then Bounce(0, false) else ScanNext(ScanAfter(n - 1, length, size), length, size)
  }

  /** A block shorter than its segment follows a triangle wave of period 2 * (length - size). */
  lemma {:induction false} ScanIsTriangle(n: nat, length: uint16, size: uint8)
    requires size < length
    ensures var top := length - size;
            ScanAfter(n, length, size) == Bounce(Triangle(n % (2 * top), top), n % (2 * top) >= top)
  {
    var q := PhaseIsRemainder(n, 2 * (length - size));
    ScanPhase(n, length, size);
  }

  lemma {:induction false} ScanPhase(n: nat, length: uint16, size: uint8)
    requires size < length
    ensures var top := length - size;
            ScanAfter(n, length, size) == Bounce(Triangle(Phase(n, 2 * top), top), Phase(n, 2 * top) >= top)
  {
    if n > 0 {
      ScanPhase(n - 1, length, size);
    }
  }

  /** Every pixel of the block, in every frame, is inside the segment exactly when the block is shorter than it. */
  lemma ScanStaysInsideIff(length: uint16, size: uint8)
    requires length > 0 && size > 0
    ensures (forall n: nat :: ScanAfter(n, length, size).step + size <= length) <==> size < length
  {
    if size < length {
      forall n: nat ensures ScanAfter(n, length, size).step + size <= length {
        ScanIsTriangle(n, length, size);
      }
    } else {
      assert ScanAfter(0, length, size).step == 0;
      assert ScanAfter(1, length, size).step == 1;
    }
  }

  /** A larson scanner runs through the steps of one period and starts over. */
  function LarsonNext(step: uint32, length: uint16): uint32 {
    var next := ToUint32(step + 1);
    if next >= ToUint16(2 * length - 2) then 0 else next
  }

  function LarsonAfter(n: nat, length: uint16): uint32 {
    if n == 0 then 0 else LarsonNext(LarsonAfter(n - 1, length), length)
  }

  /** The offset, from the end the scanner starts at, of the pixel a step lights. */
  function LarsonOffset(step: uint32, length: uint16): int {
    if step < length then step else 2 * length - step - 2
  }

  function LarsonPeriod(length: uint16): int {
    if length == 1 then 1 else 2 * length - 2
  }

  /** The lit pixel follows a triangle wave, always inside the segment. */
  lemma LarsonIsTriangle(n: nat, length: uint16)
    requires 1 <= length < 0x8000
    ensures LarsonAfter(n, length) == n % LarsonPeriod(length)
    ensures LarsonOffset(LarsonAfter(n, length), length) == Triangle(n % LarsonPeriod(length), length - 1)
    ensures 0 <= LarsonOffset(LarsonAfter(n, length), length) < length
  {
    var q := PhaseIsRemainder(n, LarsonPeriod(length));
    LarsonPhase(n, length);
  }

  lemma {:induction false} LarsonPhase(n: nat, length: uint16)
    requires 1 <= length < 0x8000
    ensures LarsonAfter(n, length) == Phase(n, LarsonPeriod(length))
  {
    if n > 0 {
      LarsonPhase(n - 1, length);
    }
  }
}
