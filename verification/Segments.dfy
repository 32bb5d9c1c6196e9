/**
  Segments of the strip, the counters an effect keeps for its segment, and the pictures the
  effects draw, pixel by pixel.
*/
module Segments {
  import opened Words
  import opened PixelStrip
  import opened EffectSteps

  datatype Segment = Segment(start: uint16, stop: uint16, options: uint8, color0: uint32, color1: uint32,
      color2: uint32) {
    function Length(): int {
      stop - start + 1
    }

    predicate IsReverse() {
      options >= 0x80
    }

    predicate IsGamma() {
      options / 8 % 2 == 1
    }

    function FadeRate(): nat {
      options / 16 % 8
    }

    function SizeOption(): nat {
      options / 2 % 4
    }

    /** 1 << SIZE_OPTION */
    function Size(): (size: uint8)
      ensures size in {1, 2, 4, 8}
    {
      match SizeOption()
      case 0 => 1
      case 1 => 2
      case 2 => 4
      case _ => 8
    }

    /** Small enough for every index the effects compute, and a block past them, to fit in 16 bits. */
    predicate Addressable() {
      start <= stop < 0xFFF0
    }

    predicate Contains(n: int) {
      start <= n <= stop
    }

    /** The pixel a number of steps away from the end an effect starts at. */
    function PixelAt(distance: int): int {
      if IsReverse() then stop - distance else start + distance
    }

    function DistanceOf(n: int): int {
      if IsReverse() then stop - n else n - start
    }
  }

  /**
    What an effect keeps between frames: when the next one is due, its counters, and two flags for the
    last pass: a frame was drawn, and a period ended with it.
  */
  datatype Runtime = Runtime(nextTime: uint32, step: uint32, calls: uint32, auxParam: uint8, auxParam3: uint16,
                             frame: bool, cycle: bool)

  const RESET := Runtime(0, 0, 0, 0, 0, false, false)

  /** The filler's state as the filling-up effect keeps it. */
  function FillerOf(rt: Runtime): Filler {
    Filler(rt.step, rt.auxParam3, rt.auxParam != 0)
  }

  /** A picture after one pixel was set; pixels past the end are ignored. */
  function WithPixel<T>(cells: seq<T>, n: nat, cell: T): (r: seq<T>)
    ensures |r| == |cells|
  {
    if n < |cells| then cells[n := cell] else cells
  }

  lemma PixelOf<T>(cells: seq<T>, n: nat, cell: T, k: nat)
    requires k < |cells|
    ensures WithPixel(cells, n, cell)[k] == if k == n then cell else cells[k]
  {
  }

  /** A picture after count pixels were copied from src to dest. */
  function Moved<T>(cells: seq<T>, dest: nat, src: nat, count: nat): (r: seq<T>)
    requires dest + count <= |cells| && src + count <= |cells|
    ensures |r| == |cells|
  {
    seq(|cells|, n requires 0 <= n < |cells| => cells[if dest <= n < dest + count then src + (n - dest) else n])
  }

  /** A picture after filling from first, at most to the end of the segment; count 0 means all of it. */
  function Filled(cells: seq<seq<uint8>>, seg: Segment, first: uint16, count: uint16,
      cell: seq<uint8>): (r: seq<seq<uint8>>)
    ensures |r| == |cells|
  {
    if seg.Contains(first) then Painted(cells, first, SegmentFillEnd(seg, first, count), cell) else cells
  }

  /** One past the last pixel of a fill, in 16 bits. */
  function SegmentFillEnd(seg: Segment, first: uint16, count: uint16): uint16 {
    if count == 0 then ToUint16(seg.stop + 1)
    else
      var end := ToUint16(first + count);
      if end > seg.stop + 1 then ToUint16(seg.stop + 1) else end
  }

  /** A fill from inside the segment covers what lies between its ends, both cut to 16 bits, and in the segment. */
  lemma FilledPixels(cells: seq<seq<uint8>>, seg: Segment, first: uint16, count: uint16, cell: seq<uint8>, n: nat)
    requires n < |cells|
    ensures Filled(cells, seg, first, count, cell)[n] ==
            if seg.start <= first <= n <= seg.stop &&
               (if count == 0 then seg.stop < 0xFFFF else n < (first + count) % 0x1_0000)
            then cell
            else cells[n]
  {
  }

  // ---- Filling up ----

  /** The pixels of the drop: size of them from its position on, clipped to the segment. */
  predicate DropCovers(seg: Segment, step: nat, n: int) {
    seg.PixelAt(step) <= n < seg.PixelAt(step) + seg.Size()
  }

  /** Whether a frame drawn in state f shows pixel n of the segment in the filling colour. */
  predicate FillerLights(seg: Segment, f: Filler, n: int) {
    DropCovers(seg, f.step, n) || seg.DistanceOf(n) >= seg.Length() - f.filled
  }

  function FillerPicture(cells: seq<seq<uint8>>, seg: Segment, f: Filler, fg: seq<uint8>,
      bg: seq<uint8>): (r: seq<seq<uint8>>)
    ensures |r| == |cells|
  {
    seq(|cells|, n requires 0 <= n < |cells| =>
      if !seg.Contains(n) then cells[n] else if FillerLights(seg, f, n) then fg else bg)
  }

  /** A frame covers the whole segment, so the one before it does not matter. */
  lemma FillerPictureCovers(cells: seq<seq<uint8>>, seg: Segment, f: Filler, g: Filler, fg: seq<uint8>, bg: seq<uint8>,
      fg': seq<uint8>, bg': seq<uint8>)
    ensures FillerPicture(FillerPicture(cells, seg, f, fg, bg), seg, g, fg', bg') ==
              FillerPicture(cells, seg, g, fg', bg')
  {
  }

  /** The three fills of a frame. */
  lemma FillerPictureIsThreeFills(cells: seq<seq<uint8>>, seg: Segment, f: Filler, fg: seq<uint8>, bg: seq<uint8>)
    requires seg.Addressable() && f.filled < seg.Length() && f.step < seg.Length()
    ensures var empty := Filled(cells, seg, seg.start, seg.Length(), bg);
            var drop := Filled(empty, seg, seg.PixelAt(f.step), seg.Size(), fg);
            var first := if seg.IsReverse() then seg.start else seg.start + seg.Length() - f.filled;
            FillerPicture(cells, seg, f, fg, bg) == if f.filled == 0 then drop
                else Filled(drop, seg, first, f.filled, fg)
  {
  }

  /** After every frame the pixels counted as filled are lit, and besides them only the drop. */
  lemma FilledPartIsLit(seg: Segment, f: Filler, n: int)
    requires seg.stop < 0xFFFF && seg.Contains(n) && FillerValid(f, seg.Length()) && f.filled < seg.Length()
    ensures FillerLights(seg, f, n) <==>
            DropCovers(seg, f.step, n) || seg.DistanceOf(n) >= seg.Length() - FillerNext(f, seg.Length()).filled
  {
  }

  // ---- Running ----

  /** The length of a run of equally coloured pixels: 2 << SIZE_OPTION. */
  function RunLength(seg: Segment): (k: nat)
    ensures k == 2 || k == 4 || k == 8 || k == 16
  {
    match seg.SizeOption()
    case 0 => 2
    case 1 => 4
    case 2 => 8
    case _ => 16
  }

  /** The bit of the step that picks the colour; a run length is a power of two. */
  predicate FirstColorAt(seg: Segment, step: nat) {
    step / RunLength(seg) % 2 == 1
  }

  /** Size and length of a run are powers of two. */
  lemma SizesArePowers(seg: Segment)
    ensures seg.Size() == PowerOfTwo(seg.options / 2 % 4)
    ensures RunLength(seg) == 2 * PowerOfTwo(seg.options / 2 % 4)
  {
    assert PowerOfTwo(0) == 1 && PowerOfTwo(1) == 2 && PowerOfTwo(2) == 4 && PowerOfTwo(3) == 8;
  }

  /** Of two run lengths the second colour has the first one, and the first colour the second one. */
  lemma FirstColorIff(seg: Segment, step: nat)
    ensures var size := 2 * PowerOfTwo(seg.options / 2 % 4);
            size > 0 && (FirstColorAt(seg, step) <==> step % (2 * size) >= size)
  {
    SizesArePowers(seg);
    SecondHalf(step, RunLength(seg));
  }

  lemma SecondHalf(x: nat, d: nat)
    requires d > 0
    ensures x / d % 2 == 1 <==> x % (2 * d) >= d
  {
    var q, r := x / d, x % d;
    var half, bit := q / 2, q % 2;
    assert x == d * q + r;
    SplitQuotient(x, d, half, bit, r);
  }

  lemma SplitQuotient(x: nat, d: nat, half: nat, bit: nat, r: nat)
    requires r < d && bit < 2 && x == d * (2 * half + bit) + r
    ensures x % (2 * d) == (if bit == 1 then d else 0) + r
  {
    assert d * (2 * half + bit) == 2 * d * half + d * bit;
    assert d * bit == if bit == 1 then d else 0;
    RemainderIsUnique(x, 2 * d, half, d * bit + r);
  }

  /** What the bits of the options stand for: reverse, the fade rate, gamma correction and the size. */
  lemma OptionBits(seg: Segment, reverse: bool, fadeRate: nat, gamma: bool, size: nat, low: nat)
    requires fadeRate < 8 && size < 4 && low < 2
    requires seg.options == 128 * BitValue(reverse) + 16 * fadeRate + 8 * BitValue(gamma) + 2 * size + low
    ensures seg.IsReverse() == reverse && seg.FadeRate() == fadeRate && seg.IsGamma() == gamma
    ensures seg.SizeOption() == size
  {
    var r, g := BitValue(reverse), BitValue(gamma);
    hide BitValue;
    RemainderIsUnique(seg.options, 16, 8 * r + fadeRate, 8 * g + 2 * size + low);
    RemainderIsUnique(8 * r + fadeRate, 8, r, fadeRate);
    RemainderIsUnique(seg.options, 8, 16 * r + 2 * fadeRate + g, 2 * size + low);
    RemainderIsUnique(16 * r + 2 * fadeRate + g, 2, 8 * r + fadeRate, g);
    RemainderIsUnique(seg.options, 2, 64 * r + 8 * fadeRate + 4 * g + size, low);
    RemainderIsUnique(64 * r + 8 * fadeRate + 4 * g + size, 4, 16 * r + 2 * fadeRate + g, size);
  }

  function BitValue(bit: bool): (v: nat)
    ensures v == 1 <==> bit
    ensures v < 2
  {
    if bit then 1 else 0
  }

  /** A picture after the pixels of a segment moved on by one and another came in. */
  function ShiftedIn<T>(cells: seq<T>, seg: Segment, entering: T): (r: seq<T>)
    requires seg.start <= seg.stop < |cells|
    ensures |r| == |cells|
  {
    seq(|cells|, n requires 0 <= n < |cells| =>
      if !seg.Contains(n) then cells[n]
      else if seg.DistanceOf(n) == 0 then entering
      else if seg.IsReverse() then cells[n + 1] else cells[n - 1])
  }

  lemma ShiftedInIsMove<T>(cells: seq<T>, seg: Segment, entering: T)
    requires seg.start <= seg.stop < |cells|
    ensures var (dest, src, entry) :=
              if seg.IsReverse() then (seg.start, seg.start + 1, seg.stop) else (seg.start + 1, seg.start, seg.start);
            ShiftedIn(cells, seg, entering) == WithPixel(Moved(cells, dest, src, seg.stop - seg.start), entry, entering)
  {
  }

  /** A picture after several pixels came in one after the other. */
  function ShiftedAll<T>(cells: seq<T>, seg: Segment, entered: seq<T>): (r: seq<T>)
    requires seg.start <= seg.stop < |cells|
    ensures |r| == |cells|
  {
    if entered == [] then cells
    else ShiftedIn(ShiftedAll(cells, seg, entered[..|entered| - 1]), seg, entered[|entered| - 1])
  }

  /** The step counter wraps at 32 bits without disturbing the pattern. */
  lemma WrappedStep(seg: Segment, n: nat)
    ensures FirstColorAt(seg, ToUint32(n)) == FirstColorAt(seg, n)
  {
    if n >= 0x1_0000_0000 {
      RemovedMultiple(n / 0x1_0000_0000, n % 0x1_0000_0000, RunLength(seg));
    }
  }

  lemma RemovedMultiple(q: nat, r: nat, d: nat)
    requires d == 2 || d == 4 || d == 8 || d == 16
    ensures (0x1_0000_0000 * q + r) / d % 2 == r / d % 2
  {
    match d
    case 2 => RemovedWord(q, r, 2, 0x4000_0000 * q);
    case 4 => RemovedWord(q, r, 4, 0x2000_0000 * q);
    case 8 => RemovedWord(q, r, 8, 0x1000_0000 * q);
    case 16 => RemovedWord(q, r, 16, 0x800_0000 * q);
  }

  lemma RemovedWord(q: nat, r: nat, d: nat, m: nat)
    requires d > 0 && 0x1_0000_0000 * q == d * (2 * m)
    ensures (0x1_0000_0000 * q + r) / d % 2 == r / d % 2
  {
    var k, e := r / d, r % d;
    assert d * (2 * m + k) == d * (2 * m) + d * k;
    RemainderIsUnique(0x1_0000_0000 * q + r, d, 2 * m + k, e);
  }

  /**
    The segment works as a shift register: the pixel at distance d shows what came in d pixels ago,
    or, if fewer came in, what was as many pixels closer to the entry.
  */
  lemma {:induction false} ShiftRegister<T>(cells: seq<T>, seg: Segment, entered: seq<T>, p: nat)
    requires seg.start <= seg.stop < |cells| && p < |cells|
    ensures ShiftedAll(cells, seg, entered)[p] ==
            if !seg.Contains(p) then cells[p]
            else if seg.DistanceOf(p) < |entered| then entered[|entered| - 1 - seg.DistanceOf(p)]
            else cells[seg.PixelAt(seg.DistanceOf(p) - |entered|)]
  {
    if entered != [] {
      var before := entered[..|entered| - 1];
      if !seg.Contains(p) {
        ShiftRegister(cells, seg, before, p);
      } else if seg.DistanceOf(p) > 0 {
        ShiftRegister(cells, seg, before, if seg.IsReverse() then p + 1 else p - 1);
      }
    }
  }

  lemma ShiftedOnce<T>(cells: seq<T>, seg: Segment, entered: seq<T>, entering: T)
    requires seg.start <= seg.stop < |cells|
    ensures ShiftedAll(cells, seg, entered + [entering]) == ShiftedIn(ShiftedAll(cells, seg, entered), seg, entering)
  {
    assert (entered + [entering])[..|entered|] == entered;
  }

  // ---- Rainbow ----

  /** How far the wheel turns in a frame; the 256 of a single pixel does not fit a byte. */
  function WheelIncrement(length: uint16): (k: uint8)
    requires length > 0
    ensures k > 0
  {
    var k := ToUint8(256 / length);
    if k == 0 then 1 else k
  }

  /** The wheel turns once per length of the segment, as nearly as whole steps below 256 and above 0 allow. */
  lemma WheelIncrementIs(length: uint16)
    requires length > 0
    ensures var k := WheelIncrement(length);
            if length == 1 || length > 256 then k == 1 else k * length <= 256 < (k + 1) * length
  {
    if 1 < length <= 256 {
      var k, rest := 256 / length, 256 % length;
      assert 256 == length * k + rest;
      QuotientOf256(length, k, rest);
      SmallIncrement(length, k);
    } else if length > 256 {
      RemainderIsUnique(256, length, 0, 256);
      SmallIncrement(length, 0);
    } else {
      SmallIncrement(1, 256);
    }
  }

  lemma SmallIncrement(length: uint16, k: nat)
    requires length > 0 && 256 / length == k <= 256
    ensures WheelIncrement(length) == if k == 0 || k == 256 then 1 else k
  {
  }

  lemma QuotientOf256(length: int, k: int, rest: int)
    requires 1 < length <= 256 && 0 <= rest < length && 256 == length * k + rest
    ensures 1 <= k <= 128 && k * length <= 256 < (k + 1) * length
  {
    assert (k + 1) * length == length * k + length && length * k == k * length;
    SameSignProduct(length, -k);
    assert length * -k == -(length * k);
    if k > 128 {
      ProductMonotone(129, k, length);
    }
  }

  function WheelNext(step: nat, increment: uint8): nat {
    if step + increment > 255 then (step + increment) % 0x100 else step + increment
  }

  /** The wheel position after n frames from a reset. */
  function WheelAfter(n: nat, increment: uint8): uint8 {
    if n == 0 then 0 else WheelNext(WheelAfter(n - 1, increment), increment)
  }

  /** Frames among the first n that went past the end of the wheel. */
  function WheelTurns(n: nat, increment: uint8): nat {
    if n == 0 then 0
    else WheelTurns(n - 1, increment) + if WheelAfter(n - 1, increment) + increment > 255 then 1 else 0
  }

  /** The wheel turns evenly: position and turns are remainder and quotient of the way it went. */
  lemma WheelTurnsEvenly(n: nat, increment: uint8)
    ensures WheelAfter(n, increment) == n * increment % 0x100
    ensures WheelTurns(n, increment) == n * increment / 0x100
  {
    WheelGoesOn(n, increment);
    RemainderIsUnique(n * increment, 0x100, WheelTurns(n, increment), WheelAfter(n, increment));
  }

  lemma WheelNextStep(step: uint8, increment: uint8)
    ensures WheelNext(step, increment) == if step + increment > 255 then step + increment - 0x100 else step + increment
  {
  }

  lemma {:induction false} WheelGoesOn(n: nat, increment: uint8)
    ensures n * increment == 0x100 * WheelTurns(n, increment) + WheelAfter(n, increment)
  {
    if n > 0 {
      hide WheelNext;
      WheelGoesOn(n - 1, increment);
      WheelNextStep(WheelAfter(n - 1, increment), increment);
      assert n * increment == (n - 1) * increment + increment;
    }
  }

  // ---- Wiping ----

  /** The step at which a wipe turns a pixel off: second half of the period, from the other end if rev says so. */
  function OffStep(seg: Segment, rev: bool, n: int): int {
    seg.Length() + if seg.IsReverse() == rev then n - seg.start else seg.stop - n
  }

  /** The pixel turned off at a step of the second half. */
  function OffPixel(seg: Segment, rev: bool, step: int): int {
    if seg.IsReverse() == rev then seg.start + (step - seg.Length()) else seg.stop - (step - seg.Length())
  }

  /** A picture after the one pixel of a frame of the wipe was drawn. */
  function Wiped<T>(cells: seq<T>, seg: Segment, step: nat, rev: bool, on: T, off: T): (r: seq<T>)
    requires seg.start <= seg.stop && step < 2 * seg.Length()
    ensures |r| == |cells|
  {
    if step < seg.Length() then WithPixel(cells, seg.PixelAt(step), on)
        else WithPixel(cells, OffPixel(seg, rev, step), off)
  }

  function WipedAfter<T>(cells: seq<T>, seg: Segment, rev: bool, on: T, off: T, n: nat): (r: seq<T>)
    requires seg.start <= seg.stop
    ensures |r| == |cells|
  {
    if n == 0 then cells
    else Wiped(WipedAfter(cells, seg, rev, on, off, n - 1), seg, Phase(n - 1, 2 * seg.Length()), rev, on, off)
  }

  /** What a pixel of the segment shows after n frames of wiping from a reset. */
  lemma {:induction false} WipeClosedForm<T>(cells: seq<T>, seg: Segment, rev: bool, on: T, off: T, n: nat, p: nat)
    requires seg.start <= seg.stop && p < |cells|
    ensures var phase := Phase(n, 2 * seg.Length());
            WipedAfter(cells, seg, rev, on, off, n)[p] ==
            if !seg.Contains(p) then cells[p]
            else if phase > OffStep(seg, rev, p) then off
            else if phase > seg.DistanceOf(p) then on
            else if n < 2 * seg.Length() then cells[p]
            else off
  {
    if n > 0 {
      WipeClosedForm(cells, seg, rev, on, off, n - 1, p);
      FirstPeriod(n - 1, 2 * seg.Length());
      WipedPixel(WipedAfter(cells, seg, rev, on, off, n - 1), seg, Phase(n - 1, 2 * seg.Length()), rev, on, off, p);
      hide Wiped, OffPixel;
    }
  }

  lemma {:induction false} FirstPeriod(n: nat, period: nat)
    requires period > 0
    ensures n < period ==> Phase(n, period) == n
    ensures n >= period ==> Phase(n, period) < n
  {
    if n > 0 {
      FirstPeriod(n - 1, period);
    }
  }

  lemma WipedPixel<T>(cells: seq<T>, seg: Segment, step: nat, rev: bool, on: T, off: T, p: nat)
    requires seg.start <= seg.stop && step < 2 * seg.Length() && p < |cells|
    ensures Wiped(cells, seg, step, rev, on, off)[p] ==
            if seg.Contains(p) && step == seg.DistanceOf(p) then on
            else if seg.Contains(p) && step == OffStep(seg, rev, p) then off
            else cells[p]
  {
  }

  // ---- Scanning ----

  /** How far ahead a pixel is, in 16 bits. */
  function Gap(x: int): nat {
    x % 0x1_0000
  }

  lemma GapIs(x: int, n: uint16, i: uint8)
    ensures n == ToUint16(x) <==> Gap(x + i - n) == i
  {
    if n == ToUint16(x) {
      RemainderIsUnique(x + i - n, 0x1_0000, x / 0x1_0000, i);
    } else if Gap(x + i - n) == i {
      RemainderIsUnique(x, 0x1_0000, (x + i - n) / 0x1_0000, n);
    }
  }

  /** The only pixel with a given gap below a base, and above one. */
  lemma PixelAtGap(base: int, n: uint16, i: uint8)
    ensures n == ToUint16(base - i) <==> Gap(base - n) == i
    ensures n == ToUint16(base + i) <==> Gap(n - base) == i
  {
    GapIs(base - i, n, i);
    var x := base + i;
    if n == ToUint16(x) {
      RemainderIsUnique(n - base, 0x1_0000, -(x / 0x1_0000), i);
    } else if Gap(n - base) == i {
      RemainderIsUnique(x, 0x1_0000, -((n - base) / 0x1_0000), n);
    }
  }

  /** Whether a block of Size pixels at the given step covers pixel n; indices are cut to 16 bits. */
  predicate BlockCovers(seg: Segment, step: nat, dual: bool, n: int) {
    || ((seg.IsReverse() || dual) && Gap(seg.stop - step - n) < seg.Size())
    || ((!seg.IsReverse() || dual) && Gap(n - (seg.start + step)) < seg.Size())
  }

  /** The k-th pixel of a block at the given step, drawn from either end or from both. */
  function BlockPixel<T>(cells: seq<T>, seg: Segment, step: nat, dual: bool, k: uint8, cell: T): (r: seq<T>)
    ensures |r| == |cells|
  {
    var backward := if seg.IsReverse() || dual then WithPixel(cells, ToUint16(seg.stop - step - k), cell) else cells;
    if !seg.IsReverse() || dual then WithPixel(backward, ToUint16(seg.start + step + k), cell) else backward
  }

  /** The first k pixels of the block. */
  function BlockDrawn<T>(cells: seq<T>, seg: Segment, step: nat, dual: bool, k: uint8, cell: T): (r: seq<T>)
    ensures |r| == |cells|
  {
    if k == 0 then cells
    else BlockPixel(BlockDrawn(cells, seg, step, dual, k - 1, cell), seg, step, dual, k - 1, cell)
  }

  lemma {:induction false} BlockDrawnAt<T>(cells: seq<T>, seg: Segment, step: nat, dual: bool, k: uint8, cell: T,
      n: uint16)
    requires n < |cells|
    ensures BlockDrawn(cells, seg, step, dual, k, cell)[n] ==
            if (seg.IsReverse() || dual) && Gap(seg.stop - step - n) < k then cell
            else if (!seg.IsReverse() || dual) && Gap(n - (seg.start + step)) < k then cell
            else cells[n]
  {
    hide Gap, ToUint16;
    if k > 0 {
      BlockDrawnAt(cells, seg, step, dual, k - 1, cell, n);
      PixelAtGap(seg.stop - step, n, k - 1);
      PixelAtGap(seg.start + step, n, k - 1);
    }
  }

  /** What a frame of the scan shows. */
  function ScanPicture<T>(cells: seq<T>, seg: Segment, step: nat, dual: bool, fg: T, bg: T): (r: seq<T>)
    ensures |r| == |cells|
  {
    seq(|cells|, n requires 0 <= n < |cells| =>
      if BlockCovers(seg, step, dual, n) then fg else if seg.Contains(n) then bg else cells[n])
  }

  lemma ScanPictureIsFillAndBlock(cells: seq<seq<uint8>>, seg: Segment, step: nat, dual: bool, fg: seq<uint8>,
      bg: seq<uint8>)
    requires seg.Addressable() && |cells| <= 0x1_0000
    ensures ScanPicture(cells, seg, step, dual, fg, bg) ==
            BlockDrawn(Filled(cells, seg, seg.start, seg.Length(), bg), seg, step, dual, seg.Size(), fg)
  {
    var filled := Filled(cells, seg, seg.start, seg.Length(), bg);
    forall n: nat | n < |cells|
      ensures BlockDrawn(filled, seg, step, dual, seg.Size(), fg)[n] == ScanPicture(cells, seg, step, dual, fg, bg)[n]
    {
      BlockDrawnAt(filled, seg, step, dual, seg.Size(), fg, n);
    }
  }

  /** A block inside the segment and its background cover the whole segment and nothing else. */
  lemma ScanPictureCovers<T>(cells: seq<T>, seg: Segment, step: nat, next: nat, dual: bool, fg: T, bg: T)
    requires seg.start <= seg.stop && |cells| <= 0x1_0000
    requires step + seg.Size() <= seg.Length() && next + seg.Size() <= seg.Length()
    ensures ScanPicture(ScanPicture(cells, seg, step, dual, fg, bg), seg, next, dual, fg, bg) ==
            ScanPicture(cells, seg, next, dual, fg, bg)
  {
    hide BlockCovers;
    forall n: nat | n < |cells| && BlockCovers(seg, step, dual, n) ensures seg.Contains(n) {
      BlockIsInside(seg, step, dual, n);
    }
  }

  /** A scan of a segment no longer than its block draws past the end of the segment in its second frame. */
  lemma ScanLeavesSegment(seg: Segment, dual: bool)
    requires seg.Addressable() && seg.Length() <= seg.Size() && !seg.IsReverse()
    ensures ScanAfter(1, seg.Length(), seg.Size()).step == 1
    ensures BlockCovers(seg, 1, dual, seg.start + seg.Size()) && !seg.Contains(seg.start + seg.Size())
  {
    assert ScanAfter(0, seg.Length(), seg.Size()) == Bounce(0, false);
  }

  /** A block at one of the steps it takes when shorter than its segment lies inside the segment. */
  lemma BlockIsInside(seg: Segment, step: nat, dual: bool, n: uint16)
    requires seg.start <= seg.stop && step + seg.Size() <= seg.Length()
    ensures BlockCovers(seg, step, dual, n) <==>
            || ((seg.IsReverse() || dual) && step <= seg.stop - n < step + seg.Size())
            || ((!seg.IsReverse() || dual) && step <= n - seg.start < step + seg.Size())
    ensures BlockCovers(seg, step, dual, n) ==> seg.Contains(n)
  {
  }
}
