/**
  The effect engine on top of the strip driver: drawing clipped to a segment, and the effects
  that are driven one frame at a time by the counters of the segment's runtime.
*/
module Ws2812fx {
  import opened Words
  import opened Colors
  import opened PixelStrip
  import opened EffectSteps
  import opened Fade
  import opened Rendering
  import opened Segments

  const DEFAULT_BRIGHTNESS := 16
  const DEFAULT_COLOR: uint32 := 0xFF_0000

  ghost predicate CellsFit(cells: seq<seq<uint8>>, r: Renderer) {
    forall n :: 0 <= n < |cells| ==> |cells[n]| == r.layout.BytesPerPixel()
  }

  /** A picture after the pixels from the start of a segment up to a given one faded by one frame. */
  ghost function FadedPicture(cells: seq<seq<uint8>>, seg: Segment, r: Renderer, target: uint32,
      end: nat): (faded: seq<seq<uint8>>)
    requires r.Valid() && CellsFit(cells, r)
    ensures |faded| == |cells| && CellsFit(faded, r)
  {
    seq(|cells|, n requires 0 <= n < |cells| && r.Valid() && CellsFit(cells, r) =>
      if seg.start <= n < end then r.FadedCell(cells[n], target, seg.FadeRate()) else cells[n])
  }

  lemma NothingFaded(cells: seq<seq<uint8>>, seg: Segment, r: Renderer, target: uint32)
    requires r.Valid() && CellsFit(cells, r)
    ensures FadedPicture(cells, seg, r, target, seg.start) == cells
  {
  }

  lemma FadedPictureGrows(cells: seq<seq<uint8>>, seg: Segment, r: Renderer, target: uint32, end: nat)
    requires r.Valid() && CellsFit(cells, r) && seg.start <= end
    ensures end < |cells| ==> FadedPicture(cells, seg, r, target, end)[end] == cells[end]
    ensures FadedPicture(cells, seg, r, target, end + 1) ==
            if end < |cells|
                then FadedPicture(cells, seg, r, target, end)[end := r.FadedCell(cells[end], target, seg.FadeRate())]
            else FadedPicture(cells, seg, r, target, end)
  {
  }

  /** A picture whose segment faded by n frames. */
  ghost function FadedTimesPicture(cells: seq<seq<uint8>>, seg: Segment, r: Renderer, target: uint32, n: nat)
    : (faded: seq<seq<uint8>>)
    requires r.Valid() && CellsFit(cells, r)
    ensures |faded| == |cells| && CellsFit(faded, r)
  {
    seq(|cells|, p requires 0 <= p < |cells| && r.Valid() && CellsFit(cells, r) =>
      if seg.Contains(p) then FadedCellTimes(r, cells[p], target, seg.FadeRate(), n) else cells[p])
  }

  lemma OneMoreFade(cells: seq<seq<uint8>>, seg: Segment, r: Renderer, target: uint32, n: nat)
    requires r.Valid() && CellsFit(cells, r)
    ensures FadedPicture(FadedTimesPicture(cells, seg, r, target, n), seg, r, target, seg.stop + 1) ==
            FadedTimesPicture(cells, seg, r, target, n + 1)
  {
    hide Renderer.FadedCell;
    forall p | 0 <= p < |cells| && seg.Contains(p)
      ensures FadedCellTimes(r, cells[p], target, seg.FadeRate(), n + 1) ==
              r.FadedCell(FadedCellTimes(r, cells[p], target, seg.FadeRate(), n), target, seg.FadeRate())
    {
      FadeOnceMore(r, cells[p], target, seg.FadeRate(), n);
    }
  }

  /** A plain strip whose segment fades at rate 0 is black in the segment after eight frames. */
  lemma SegmentFadesToBlack(cells: seq<seq<uint8>>, seg: Segment, r: Renderer, target: uint32, n: nat, p: nat)
    requires Plain(r) && CellsFit(cells, r) && seg.FadeRate() == 0 && n >= 8
    requires p < |cells| && seg.Contains(p)
    ensures Black(FadedTimesPicture(cells, seg, r, target, n)[p])
  {
    EightFramesAreBlack(r, cells[p], target, n);
  }

  // ---- The larson scanner's trail ----

  /** The pixel a larson scanner lights in its k-th frame after a reset, following a triangle wave. */
  function LitPixel(seg: Segment, k: nat): (p: nat)
    requires seg.Addressable() && seg.Length() < 0x8000
    ensures seg.Contains(p)
    ensures p == seg.PixelAt(Triangle(k % LarsonPeriod(seg.Length()), seg.Length() - 1))
  {
    LarsonIsTriangle(k, seg.Length());
    seg.PixelAt(LarsonOffset(LarsonAfter(k, seg.Length()), seg.Length()))
  }

  /** The picture after n frames. */
  ghost function LarsonPicture(cells: seq<seq<uint8>>, seg: Segment, r: Renderer, n: nat): (after: seq<seq<uint8>>)
    requires r.Valid() && CellsFit(cells, r) && seg.Addressable() && seg.Length() < 0x8000
    ensures |after| == |cells| && CellsFit(after, r)
  {
    if n == 0 then cells
    else
      var faded := FadedPicture(LarsonPicture(cells, seg, r, n - 1), seg, r, seg.color1, seg.stop + 1);
      WithPixel(faded, LitPixel(seg, n - 1), r.Cell(Unpacked(seg.color0)))
  }

  /** In a frame one pixel is lit and the others of the segment fade. */
  lemma LarsonFrame(cells: seq<seq<uint8>>, seg: Segment, r: Renderer, n: nat, p: nat)
    requires r.Valid() && CellsFit(cells, r) && seg.Addressable() && seg.Length() < 0x8000
    requires p < |cells| && seg.Contains(p)
    ensures LarsonPicture(cells, seg, r, n + 1)[p] ==
            if LitPixel(seg, n) == p then r.Cell(Unpacked(seg.color0))
            else r.FadedCell(LarsonPicture(cells, seg, r, n)[p], seg.color1, seg.FadeRate())
  {
    hide Renderer.FadedCell, Renderer.Cell, LitPixel, Unpacked;
  }

  /**
    A pixel last lit in frame k shows the lit colour faded by the frames since; one never lit its own
    colour, faded.
  */
  lemma {:induction false} LarsonTrail(cells: seq<seq<uint8>>, seg: Segment, r: Renderer, n: nat, p: nat, k: int)
    requires r.Valid() && CellsFit(cells, r) && seg.Addressable() && seg.Length() < 0x8000
    requires p < |cells| && seg.Contains(p) && -1 <= k < n
    requires k >= 0 ==> LitPixel(seg, k) == p
    requires forall j: nat :: k < j < n ==> LitPixel(seg, j) != p
    ensures LarsonPicture(cells, seg, r, n)[p] ==
            if k >= 0 then FadedCellTimes(r, r.Cell(Unpacked(seg.color0)), seg.color1, seg.FadeRate(), n - 1 - k)
            else FadedCellTimes(r, cells[p], seg.color1, seg.FadeRate(), n)
  {
    hide Renderer.FadedCell, Renderer.Cell, LitPixel, Unpacked, LarsonPicture;
    if n == 0 {
      LarsonStart(cells, seg, r);
    } else {
      LarsonFrame(cells, seg, r, n - 1, p);
    }
    if n > 0 && k < n - 1 {
      LarsonTrail(cells, seg, r, n - 1, p, k);
      if k >= 0 {
        FadeOnceMore(r, r.Cell(Unpacked(seg.color0)), seg.color1, seg.FadeRate(), n - 2 - k);
      } else {
        FadeOnceMore(r, cells[p], seg.color1, seg.FadeRate(), n - 1);
      }
    }
  }

  lemma LarsonStart(cells: seq<seq<uint8>>, seg: Segment, r: Renderer)
    requires r.Valid() && CellsFit(cells, r) && seg.Addressable() && seg.Length() < 0x8000
    ensures LarsonPicture(cells, seg, r, 0) == cells
  {
  }

  lemma {:induction false} LarsonStaysInside(cells: seq<seq<uint8>>, seg: Segment, r: Renderer, n: nat, p: nat)
    requires r.Valid() && CellsFit(cells, r) && seg.Addressable() && seg.Length() < 0x8000
    requires p < |cells| && !seg.Contains(p)
    ensures LarsonPicture(cells, seg, r, n)[p] == cells[p]
  {
    hide Renderer.FadedCell, Renderer.Cell, CellsFit, LitPixel;
    if n > 0 {
      LarsonStaysInside(cells, seg, r, n - 1, p);
    }
  }

  /** What enters a rainbow in its first n frames. */
  ghost function Rainbow(r: Renderer, increment: uint8, n: nat): (entered: seq<seq<uint8>>)
    requires r.Valid()
    ensures |entered| == n
  {
    if n == 0 then [] else Rainbow(r, increment, n - 1) + [r.Cell(Unpacked(ColorWheel(WheelAfter(n - 1, increment))))]
  }

  /** The pixel at distance d shows the wheel at d increments before its newest position. */
  lemma {:induction false} RainbowAt(r: Renderer, increment: uint8, n: nat, d: nat)
    requires r.Valid() && d < n
    ensures (n - 1 - d) * increment >= 0
    ensures Rainbow(r, increment, n)[n - 1 - d] == r.Cell(Unpacked(ColorWheel((n - 1 - d) * increment % 0x100)))
  {
    if d > 0 {
      RainbowAt(r, increment, n - 1, d - 1);
    } else {
      WheelTurnsEvenly(n - 1, increment);
    }
  }

  /** Moves bytes within a buffer; the two ranges may overlap. */
  method MoveBytes(bytes: array<uint8>, to: nat, from: nat, size: nat)
    requires to + size <= bytes.Length && from + size <= bytes.Length
    modifies bytes
    ensures forall k :: to <= k < to + size ==> bytes[k] == old(bytes[k + (from - to)])
    ensures forall k :: 0 <= k < bytes.Length && !(to <= k < to + size) ==> bytes[k] == old(bytes[k])
  {
    var moved := bytes[from..from + size];
    for i := 0 to size
      invariant forall k :: to <= k < to + i ==> bytes[k] == moved[k - to]
      invariant forall k :: 0 <= k < bytes.Length && !(to <= k < to + i) ==> bytes[k] == old(bytes[k])
    {
      bytes[to + i] := moved[i];
    }
  }

  class Ws2812fx {
    const strip: NeoPixel
    const gamma8: seq<uint8>
    var segment: Segment
    var runtime: Runtime
    /** The frame last handed to the wire. */
    var frame: seq<uint8>

    ghost predicate Valid()
      reads this, strip
    {
      strip.Shaped() && |gamma8| == 256
    }

    /** The segment lies on the strip, as effects need that copy pixels without looking. */
    ghost predicate SegmentFits()
      reads this, strip
    {
      segment.Addressable() && segment.stop < strip.numLeds
    }

    ghost function Render(): (r: Renderer)
      requires Valid()
      reads this, strip
      ensures r.Valid()
    {
      Renderer(strip.layout, strip.brightness, gamma8, segment.IsGamma())
    }

    /** The bytes a colour is stored as. */
    ghost function Shown(p: Rgbw): seq<uint8>
      requires Valid()
      reads this, strip
    {
      Render().Cell(p)
    }

    ghost function ShownColor(c: uint32): seq<uint8>
      requires Valid()
      reads this, strip
    {
      Shown(Unpacked(c))
    }

    /** Starts with one segment over the requested length, whatever the strip got. */
    constructor (numLeds: uint16, strip: NeoPixel, gamma8: seq<uint8>)
      requires strip.Shaped() && |gamma8| == 256
      modifies strip`brightness
      ensures Valid() && this.strip == strip && this.gamma8 == gamma8
      ensures strip.brightness == DEFAULT_BRIGHTNESS + 1
      ensures segment == Segment(0, ToUint16(numLeds - 1), 0, DEFAULT_COLOR, 0, 0) && runtime == RESET
    {
      this.strip, this.gamma8 := strip, gamma8;
      segment := Segment(0, ToUint16(numLeds - 1), 0, DEFAULT_COLOR, 0, 0);
      runtime := RESET;
      frame := [];
      new;
      strip.brightness := DEFAULT_BRIGHTNESS + 1;
    }

    method ExecShow()
      modifies this`frame
      ensures frame == strip.pixels[..]
    {
      frame := strip.pixels[..];
    }

    /** Sets the stored factor itself, without the offset and the rescaling of the strip driver. */
    method SetBrightness(b: uint8)
      requires Valid()
      modifies this`frame, strip`brightness
      ensures Valid() && strip.brightness == b && frame == strip.pixels[..]
    {
      strip.brightness := b;
      ExecShow();
    }

    /** Sets the flags as the service loop does before each call of an effect. */
    method BeginFrame()
      modifies this`runtime
      ensures runtime == old(runtime).(frame := true, cycle := false)
    {
      runtime := runtime.(frame := true, cycle := false);
    }

    method SetPixelColorRgbw(n: uint16, p: Rgbw)
      requires Valid()
      modifies strip.pixels
      ensures Valid()
      ensures strip.Cells() == WithPixel(old(strip.Cells()), n, Shown(p))
    {
      if segment.IsGamma() {
        strip.SetPixelColorRgbw(n, gamma8[p.r], gamma8[p.g], gamma8[p.b], gamma8[p.w]);
      } else {
        strip.SetPixelColorRgbw(n, p.r, p.g, p.b, p.w);
      }
    }

    method SetPixelColor(n: uint16, c: uint32)
      requires Valid()
      modifies strip.pixels
      ensures Valid()
      ensures strip.Cells() == WithPixel(old(strip.Cells()), n, ShownColor(c))
    {
      SetPixelColorRgbw(n, Unpacked(c));
    }

    /** Fills from first, at most to the end of the segment and of the strip; count 0 means all of it. */
    method Fill(c: uint32, first: uint16, count: uint16)
      requires Valid()
      modifies strip.pixels
      ensures Valid()
      ensures strip.Cells() == Filled(old(strip.Cells()), segment, first, count, ShownColor(c))
    {
      if first >= strip.numLeds || first < segment.start || first > segment.stop {
        assert segment.Contains(first) ==>
                 Painted(strip.Cells(), first, SegmentFillEnd(segment, first, count), ShownColor(c)) == strip.Cells();
        return;
      }
      var end := SegmentFillEnd(segment, first, count);
      if end > strip.numLeds {
        end := strip.numLeds;
      }
      ghost var before, cell := strip.Cells(), ShownColor(c);
      var i := first;
      while i < end
        invariant Valid() && first <= i && (first <= end ==> i <= end) && (end < first ==> i == first)
        invariant strip.Cells() == Painted(before, first, i, cell)
      {
        SetPixelColor(i, c);
        i := i + 1;
      }
      assert Painted(before, first, i, cell) == Painted(before, first, SegmentFillEnd(segment, first, count), cell);
    }

    /** Moves whole pixels; the two ranges may overlap. */
    method CopyPixels(dest: uint16, src: uint16, count: uint16)
      requires Valid() && dest + count <= strip.numLeds && src + count <= strip.numLeds
      modifies strip.pixels
      ensures Valid()
      ensures strip.Cells() == Moved(old(strip.Cells()), dest, src, count)
    {
      var rgb := strip.layout.IsRgb();
      ghost var before := strip.pixels[..];
      MoveBytes(strip.pixels, Offset(rgb, dest), Offset(rgb, src), Offset(rgb, count));
      MovedCells(before, strip.pixels[..], rgb, strip.numLeds, dest, src, count);
    }

    // ---- Effects ----

    /** A glass filling up drop by drop; when it is full the colours swap and it starts over. */
    method ModeFillerUp()
      requires Valid() && segment.Addressable() && FillerValid(FillerOf(runtime), segment.Length())
      modifies this`runtime, strip.pixels
      ensures Valid()
      ensures FillerOf(runtime) == FillerNext(old(FillerOf(runtime)), segment.Length())
      ensures runtime.cycle == (old(runtime).cycle || old(runtime).auxParam3 == segment.Length())
      ensures old(runtime).auxParam <= 1 ==> runtime.auxParam <= 1
      ensures var f := Emptied(old(FillerOf(runtime)), segment.Length());
              var fg := ShownColor(if f.swapped then segment.color0 else segment.color1);
              var bg := ShownColor(if f.swapped then segment.color1 else segment.color0);
              strip.Cells() == FillerPicture(old(strip.Cells()), segment, f, fg, bg)
    {
      var length: uint16 := segment.Length();
      if runtime.auxParam3 >= length {
        runtime := runtime.(auxParam3 := 0, auxParam := if runtime.auxParam == 0 then 1 else 0, cycle := true);
      }
      DrawFiller(if runtime.auxParam != 0 then segment.color0 else segment.color1,
          if runtime.auxParam != 0 then segment.color1 else segment.color0, FillerOf(runtime));
      runtime := runtime.(step := ToUint32(runtime.step + 1));
      if runtime.step >= length - runtime.auxParam3 {
        runtime := runtime.(auxParam3 := runtime.auxParam3 + 1, step := 0);
      }
    }

    method DrawFiller(fgColor: uint32, bgColor: uint32, f: Filler)
      requires Valid() && segment.Addressable() && f.step < segment.Length() && f.filled < segment.Length()
      modifies strip.pixels
      ensures Valid()
      ensures strip.Cells() == FillerPicture(old(strip.Cells()), segment, f, ShownColor(fgColor), ShownColor(bgColor))
    {
      hide CellsOf, Filled, FillerPicture, Shown, ShownColor;
      ghost var cells, fg, bg := strip.Cells(), ShownColor(fgColor), ShownColor(bgColor);
      var length: uint16 := segment.Length();
      var drop: uint16 := if segment.IsReverse() then segment.stop - f.step else segment.start + f.step;
      var first: uint16 := if segment.IsReverse() then segment.start else segment.start + length - f.filled;
      FillerPictureIsThreeFills(cells, segment, f, fg, bg);
      Fill(bgColor, segment.start, length);
      ghost var empty := strip.Cells();
      assert empty == Filled(cells, segment, segment.start, length, bg) && ShownColor(fgColor) == fg;
      Fill(fgColor, drop, segment.Size());
      ghost var dropped := strip.Cells();
      assert dropped == Filled(empty, segment, drop, segment.Size(), fg) && ShownColor(fgColor) == fg;
      if f.filled != 0 {
        Fill(fgColor, first, f.filled);
        assert strip.Cells() == Filled(dropped, segment, first, f.filled, fg);
      }
      assert strip.Cells() == FillerPicture(cells, segment, f, fg, bg);
      assert ShownColor(fgColor) == fg && ShownColor(bgColor) == bg;
    }

    /** Pixels are turned on one after the other, then off one after the other. */
    method ColorWipe(color1: uint32, color2: uint32, rev: bool)
      requires Valid() && segment.Addressable() && runtime.step < 2 * segment.Length()
      modifies this`runtime, strip.pixels
      ensures Valid()
      ensures strip.Cells() ==
                Wiped(old(strip.Cells()), segment, old(runtime).step, rev, ShownColor(color1), ShownColor(color2))
      ensures var next := if old(runtime).step == 2 * segment.Length() - 1 then 0 else old(runtime).step + 1;
              runtime == old(runtime).(step := next, cycle := old(runtime).cycle || next == 0)
    {
      hide CellsOf, Wiped, Renderer.Cell, Unpacked;
      DrawWipe(color1, color2, rev);
      NextModulo(runtime.step, segment.Length() * 2);
      runtime := runtime.(step := (runtime.step + 1) % (segment.Length() * 2));
      if runtime.step == 0 {
        runtime := runtime.(cycle := true);
      }
    }

    method DrawWipe(color1: uint32, color2: uint32, rev: bool)
      requires Valid() && segment.Addressable() && runtime.step < 2 * segment.Length()
      modifies strip.pixels
      ensures Valid()
      ensures strip.Cells() ==
                Wiped(old(strip.Cells()), segment, runtime.step, rev, ShownColor(color1), ShownColor(color2))
    {
      hide CellsOf, Shown, ShownColor;
      var length: uint16 := segment.Length();
      if runtime.step < length {
        var ledOffset := runtime.step;
        if segment.IsReverse() {
          SetPixelColor(segment.stop - ledOffset, color1);
        } else {
          SetPixelColor(segment.start + ledOffset, color1);
        }
      } else {
        var ledOffset := runtime.step - length;
        if (segment.IsReverse() && !rev) || (!segment.IsReverse() && rev) {
          SetPixelColor(segment.stop - ledOffset, color2);
        } else {
          SetPixelColor(segment.start + ledOffset, color2);
        }
      }
    }

    /** Alternating runs of two colours move through the segment. */
    method Running(color1: uint32, color2: uint32)
      requires Valid() && SegmentFits()
      modifies this`runtime, strip.pixels
      ensures Valid()
      ensures strip.Cells() == ShiftedIn(old(strip.Cells()), segment,
                ShownColor(if FirstColorAt(segment, old(runtime).step) then color1 else color2))
      ensures runtime == old(runtime).(step := ToUint32(old(runtime).step + 1),
                cycle := old(runtime).cycle || ToUint32(old(runtime).step + 1) % segment.Length() == 0)
    {
      var length: uint16 := segment.Length();
      ShiftIn(if FirstColorAt(segment, runtime.step) then color1 else color2);
      runtime := runtime.(step := ToUint32(runtime.step + 1));
      if runtime.step % length == 0 {
        runtime := runtime.(cycle := true);
      }
    }

    /** A rainbow moves through the segment. */
    method ModeRainbowCycle()
      requires Valid() && SegmentFits() && runtime.step < 0x100
      modifies this`runtime, strip.pixels
      ensures Valid()
      ensures strip.Cells() == ShiftedIn(old(strip.Cells()), segment, ShownColor(ColorWheel(old(runtime).step)))
      ensures var increment := WheelIncrement(segment.Length());
              runtime == old(runtime).(step := WheelNext(old(runtime).step, increment),
                  cycle := old(runtime).cycle || old(runtime).step + increment > 255)
    {
      hide CellsOf, ShiftedIn, Renderer.Cell, Unpacked, ColorWheel;
      ShiftIn(ColorWheel(runtime.step));
      var colorIndexIncr := ToUint8(256 / segment.Length());
      if colorIndexIncr == 0 {
        colorIndexIncr := 1;
      }
      runtime := runtime.(step := runtime.step + colorIndexIncr);
      if runtime.step > 255 {
        runtime := runtime.(step := runtime.step % 0x100, cycle := true);
      }
    }

    method ShiftIn(color: uint32)
      requires Valid() && SegmentFits()
      modifies strip.pixels
      ensures Valid()
      ensures strip.Cells() == ShiftedIn(old(strip.Cells()), segment, ShownColor(color))
    {
      var dest := if segment.IsReverse() then segment.start else segment.start + 1;
      var src := if segment.IsReverse() then segment.start + 1 else segment.start;
      hide CellsOf, Moved, ShiftedIn, WithPixel, Shown, ShownColor;
      ghost var cells, cell := strip.Cells(), ShownColor(color);
      ShiftedInIsMove(cells, segment, cell);
      CopyPixels(dest, src, segment.Length() - 1);
      assert ShownColor(color) == cell;
      SetPixelColor(if segment.IsReverse() then segment.stop else segment.start, color);
      assert strip.Cells() == ShiftedIn(cells, segment, cell);
      assert ShownColor(color) == cell;
    }

    lemma CellsHaveSize()
      requires Valid()
      ensures CellsFit(strip.Cells(), Render())
    {
    }

    /** Every pixel of the segment fades towards a colour. */
    method FadeOut(targetColor: uint32)
      requires Valid() && segment.Addressable()
      modifies strip.pixels
      ensures Valid() && CellsFit(old(strip.Cells()), Render())
      ensures strip.Cells() == FadedPicture(old(strip.Cells()), segment, Render(), targetColor, segment.stop + 1)
    {
      hide CellsOf, FadedPicture, CellsFit, Renderer.FadedCell;
      ghost var cells, r := strip.Cells(), Render();
      CellsHaveSize();
      NothingFaded(cells, segment, r, targetColor);
      var i := segment.start;
      while i <= segment.stop
        invariant Valid() && Render() == r && segment.start <= i <= segment.stop + 1
        invariant strip.Cells() == FadedPicture(cells, segment, r, targetColor, i)
        decreases segment.stop - i
      {
        FadedPictureGrows(cells, segment, r, targetColor, i);
        FadePixel(i, targetColor);
        i := i + 1;
      }
    }

    method FadePixel(i: uint16, targetColor: uint32)
      requires Valid()
      modifies strip.pixels
      ensures Valid()
      ensures i < strip.numLeds ==>
                && |old(strip.Cells())[i]| == Render().layout.BytesPerPixel()
                && strip.Cells() ==
                    old(strip.Cells())[i := Render().FadedCell(old(strip.Cells())[i], targetColor, segment.FadeRate())]
      ensures i >= strip.numLeds ==> strip.Cells() == old(strip.Cells())
    {
      hide CellsOf, FadedColor, ReadColor, Unpacked;
      var color := strip.GetPixelColor(i);
      var faded := FadeTowards(Unpacked(color), Unpacked(targetColor));
      SetPixelColorRgbw(i, faded);
    }

    method FadeTowards(p: Rgbw, t: Rgbw) returns (faded: Rgbw)
      ensures faded == FadedColor(p, t, segment.FadeRate())
    {
      var rate := segment.FadeRate();
      if rate == 0 {
        return Rgbw(p.r / 2, p.g / 2, p.b / 2, p.w / 2);
      }
      return Rgbw((p.r + Change(t.r - p.r, rate)) % 0x100, (p.g + Change(t.g - p.g, rate)) % 0x100,
          (p.b + Change(t.b - p.b, rate)) % 0x100, (p.w + Change(t.w - p.w, rate)) % 0x100);
    }

    /** A single bright pixel runs back and forth, leaving a fading trail. */
    method ModeLarsonScanner()
      requires Valid() && segment.Addressable() && runtime.step < LarsonPeriod(segment.Length())
      modifies this`runtime, strip.pixels
      ensures Valid() && CellsFit(old(strip.Cells()), Render())
      ensures strip.Cells() ==
                WithPixel(FadedPicture(old(strip.Cells()), segment, Render(), segment.color1, segment.stop + 1),
                    segment.PixelAt(LarsonOffset(old(runtime).step, segment.Length())), ShownColor(segment.color0))
      ensures runtime == old(runtime).(step := LarsonNext(old(runtime).step, segment.Length()),
                cycle := old(runtime).cycle || LarsonNext(old(runtime).step, segment.Length()) == 0)
    {
      hide CellsOf, FadedPicture, CellsFit, WithPixel, Renderer.Cell;
      DrawLarson();
      runtime := runtime.(step := ToUint32(runtime.step + 1));
      if runtime.step >= ToUint16(segment.Length() * 2 - 2) {
        runtime := runtime.(step := 0, cycle := true);
      }
    }

    method DrawLarson()
      requires Valid() && segment.Addressable() && runtime.step < LarsonPeriod(segment.Length())
      modifies strip.pixels
      ensures Valid() && CellsFit(old(strip.Cells()), Render())
      ensures strip.Cells() ==
                WithPixel(FadedPicture(old(strip.Cells()), segment, Render(), segment.color1, segment.stop + 1),
                    segment.PixelAt(LarsonOffset(runtime.step, segment.Length())), ShownColor(segment.color0))
    {
      hide CellsOf, WithPixel, FadedPicture, CellsFit, Shown, ShownColor;
      var length: uint16 := segment.Length();
      FadeOut(segment.color1);
      if runtime.step < length {
        SetPixelColor(if segment.IsReverse() then segment.stop - runtime.step
            else segment.start + runtime.step, segment.color0);
      } else {
        var index: uint16 := length * 2 - runtime.step - 2;
        SetPixelColor(if segment.IsReverse() then segment.stop - index else segment.start + index, segment.color0);
      }
    }

    /** A block of pixels runs back and forth. */
    method Scan(color1: uint32, color2: uint32, dual: bool)
      requires Valid() && segment.Addressable()
      modifies this`runtime, strip.pixels
      ensures Valid()
      ensures var before := Bounce(old(runtime).step, old(runtime).auxParam != 0);
              var next := ScanNext(before, segment.Length(), segment.Size());
              Bounce(runtime.step, runtime.auxParam != 0) == next
              && runtime.cycle == (old(runtime).cycle || next.step == 0)
              && (old(runtime).auxParam <= 1 ==> runtime.auxParam <= 1)
      ensures strip.Cells() ==
              ScanPicture(old(strip.Cells()), segment, old(runtime).step, dual, ShownColor(color1), ShownColor(color2))
    {
      DrawScan(color1, color2, dual);
      var dir := if runtime.auxParam != 0 then -1 else 1;
      runtime := runtime.(step := ToUint32(runtime.step + dir));
      if runtime.step == 0 {
        runtime := runtime.(auxParam := 0, cycle := true);
      }
      if runtime.step >= ToUint16(segment.Length() - segment.Size()) {
        runtime := runtime.(auxParam := 1);
      }
    }

    method DrawScan(color1: uint32, color2: uint32, dual: bool)
      requires Valid() && segment.Addressable()
      modifies strip.pixels
      ensures Valid()
      ensures strip.Cells() ==
                ScanPicture(old(strip.Cells()), segment, runtime.step, dual, ShownColor(color1), ShownColor(color2))
    {
      hide CellsOf, Filled, ScanPicture, BlockPixel, Shown, ShownColor;
      ghost var cells, fg, bg := strip.Cells(), ShownColor(color1), ShownColor(color2);
      Fill(color2, segment.start, segment.Length());
      ghost var filled := strip.Cells();
      assert filled == Filled(cells, segment, segment.start, segment.Length(), bg);
      var size := segment.Size();
      for i: uint8 := 0 to size
        invariant Valid()
        invariant strip.Cells() == BlockDrawn(filled, segment, runtime.step, dual, i, fg) && ShownColor(color1) == fg
      {
        DrawBlockPixel(color1, i, dual);
      }
      ScanPictureIsFillAndBlock(cells, segment, runtime.step, dual, fg, bg);
      assert strip.Cells() == ScanPicture(cells, segment, runtime.step, dual, fg, bg);
      assert ShownColor(color1) == fg && ShownColor(color2) == bg;
    }

    method DrawBlockPixel(color: uint32, i: uint8, dual: bool)
      requires Valid()
      modifies strip.pixels
      ensures Valid()
      ensures strip.Cells() == BlockPixel(old(strip.Cells()), segment, runtime.step, dual, i, ShownColor(color))
    {
      hide CellsOf, WithPixel, Shown, ShownColor;
      if segment.IsReverse() || dual {
        SetPixelColor(ToUint16(segment.stop - runtime.step - i), color);
      }
      if !segment.IsReverse() || dual {
        SetPixelColor(ToUint16(segment.start + runtime.step + i), color);
      }
    }

    // ---- Runs ----

    /**
      From a reset the glass is full, and the next frame flags a cycle, every length * (length + 1) / 2
      frames; the pixels counted as filled always show the filling colour.
    */
    method RunFillerUp(frames: nat)
      requires Valid() && segment.Addressable() && runtime == RESET
      modifies this`runtime, strip.pixels
      ensures Valid() && FillerOf(runtime) == FillerAfter(frames, segment.Length())
      ensures strip.Cells() ==
                FillerRun(old(strip.Cells()), segment, ShownColor(segment.color0), ShownColor(segment.color1), frames)
      ensures forall n :: 0 <= n < strip.numLeds && frames > 0 && segment.Contains(n) &&
                          segment.DistanceOf(n) >= segment.Length() - runtime.auxParam3 ==>
                strip.Cells()[n] == ShownColor(if runtime.auxParam != 0 then segment.color0 else segment.color1)
      ensures var total := segment.Length() * (segment.Length() + 1) / 2;
              total > 0 && (runtime.cycle <==> frames > 1 && (frames - 1) % total == 0)
    {
      hide CellsOf, FillerPicture, Renderer.Cell, Unpacked, FillerNext, Emptied;
      var length: uint16 := segment.Length();
      ghost var cells, first, second := strip.Cells(), ShownColor(segment.color0), ShownColor(segment.color1);
      for i := 0 to frames
        invariant Valid() && FillerOf(runtime) == FillerAfter(i, length)
        invariant ShownColor(segment.color0) == first && ShownColor(segment.color1) == second
        invariant strip.Cells() == FillerRun(cells, segment, first, second, i)
        invariant runtime.cycle <==> i > 1 && FillerAfter(i - 1, length).filled == length
      {
        ghost var before := strip.Cells();
        BeginFrame();
        ModeFillerUp();
        ghost var f := Emptied(FillerAfter(i, length), length);
        assert strip.Cells() == FillerFrame(before, segment, f, first, second);
        FillerRunCovers(cells, segment, first, second, i);
      }
      FillerRunIsFilled(cells, segment, first, second, frames);
      if frames > 1 {
        FillerFullIff(frames - 1, length);
      } else {
        FillerFullIff(1, length);
      }
    }

    /** A wipe from a reset repeats itself every 2 * length frames, flagging a cycle each time. */
    method RunColorWipe(frames: nat, color1: uint32, color2: uint32, rev: bool)
      requires Valid() && segment.Addressable() && runtime == RESET
      modifies this`runtime, strip.pixels
      ensures Valid() && runtime.step == Phase(frames, 2 * segment.Length())
      ensures strip.Cells() ==
                WipedAfter(old(strip.Cells()), segment, rev, ShownColor(color1), ShownColor(color2), frames)
      ensures runtime.cycle <==> frames > 0 && runtime.step == 0
    {
      hide CellsOf, Wiped, Renderer.Cell, Unpacked;
      ghost var cells, on, off := strip.Cells(), ShownColor(color1), ShownColor(color2);
      for i := 0 to frames
        invariant Valid() && runtime.step == Phase(i, 2 * segment.Length())
        invariant ShownColor(color1) == on && ShownColor(color2) == off
        invariant strip.Cells() == WipedAfter(cells, segment, rev, on, off, i)
        invariant runtime.cycle <==> i > 0 && runtime.step == 0
      {
        ghost var before, step := strip.Cells(), runtime.step;
        BeginFrame();
        ColorWipe(color1, color2, rev);
        assert ShownColor(color1) == on && ShownColor(color2) == off;
        assert strip.Cells() == Wiped(before, segment, step, rev, on, off);
      }
    }

    /**
      A segment running from a reset is a shift register that runs of the two colours enter, the second
      colour first; the size of a run is the size option's power of two, doubled.
    */
    method RunRunning(frames: nat, color1: uint32, color2: uint32) returns (ghost entered: seq<seq<uint8>>)
      requires Valid() && SegmentFits() && runtime == RESET
      modifies this`runtime, strip.pixels
      ensures Valid() && runtime.step == ToUint32(frames)
      ensures strip.Cells() == ShiftedAll(old(strip.Cells()), segment, entered)
      ensures |entered| == frames
      ensures forall p: uint16 :: segment.start <= p <= segment.stop ==>
                RunningShows(old(strip.Cells()), segment, ShownColor(color1), ShownColor(color2), frames, p,
                             strip.Cells()[p])
    {
      hide RunningShows, CellsOf, ShiftedIn, FirstColorAt, Renderer.Cell, Unpacked, ToUint32;
      FirstStep();
      entered := [];
      ghost var cells, first, second := strip.Cells(), ShownColor(color1), ShownColor(color2);
      for i := 0 to frames
        invariant Valid() && runtime.step == ToUint32(i) && ShownColor(color1) == first && ShownColor(color2) == second
        invariant strip.Cells() == ShiftedAll(cells, segment, entered)
        invariant |entered| == i && forall k :: 0 <= k < i ==>
                    entered[k] == if FirstColorAt(segment, k) then first else second
      {
        WrappedStep(segment, i);
        ghost var before, entering := strip.Cells(), if FirstColorAt(segment, runtime.step) then first else second;
        BeginFrame();
        Running(color1, color2);
        NextStep(i);
        assert ShownColor(color1) == first && ShownColor(color2) == second;
        assert strip.Cells() == ShiftedIn(before, segment, entering);
        ShiftedOnce(cells, segment, entered, entering);
        entered := entered + [entering];
      }
      RunningPicture(cells, segment, entered, first, second);
    }

    /** A rainbow from a reset is a shift register that the colours of the wheel enter at even distances. */
    method RunRainbowCycle(frames: nat) returns (turns: nat)
      requires Valid() && SegmentFits() && runtime == RESET
      modifies this`runtime, strip.pixels
      ensures Valid()
      ensures var increment := WheelIncrement(segment.Length());
              && strip.Cells() == ShiftedAll(old(strip.Cells()), segment, Rainbow(Render(), increment, frames))
              && runtime.step == WheelAfter(frames, increment) && turns == WheelTurns(frames, increment)
    {
      hide CellsOf, ShiftedIn, Renderer.Cell, Unpacked, ColorWheel, WheelNext, WheelIncrement;
      turns := 0;
      ghost var cells, increment, r := strip.Cells(), WheelIncrement(segment.Length()), Render();
      for i := 0 to frames
        invariant Valid() && Render() == r && runtime.step == WheelAfter(i, increment)
                    && turns == WheelTurns(i, increment)
        invariant strip.Cells() == ShiftedAll(cells, segment, Rainbow(r, increment, i))
      {
        ghost var before, entering := strip.Cells(), ShownColor(ColorWheel(runtime.step));
        BeginFrame();
        ModeRainbowCycle();
        if runtime.cycle {
          turns := turns + 1;
        }
        assert strip.Cells() == ShiftedIn(before, segment, entering);
        ShiftedOnce(cells, segment, Rainbow(r, increment, i), entering);
        assert Rainbow(r, increment, i + 1) == Rainbow(r, increment, i) + [entering];
      }
    }

    /**
      A scan shorter than its segment shows its block where the triangle wave has it, and flags a
      cycle each time it is back at its start.
    */
    method RunScan(frames: nat, color1: uint32, color2: uint32, dual: bool)
      requires Valid() && segment.Addressable() && runtime == RESET && segment.Size() < segment.Length()
      modifies this`runtime, strip.pixels
      ensures Valid()
                && Bounce(runtime.step, runtime.auxParam != 0) == ScanAfter(frames, segment.Length(), segment.Size())
      ensures frames == 0 ==> strip.Cells() == old(strip.Cells())
      ensures frames > 0 ==>
                var top := segment.Length() - segment.Size();
                var step := Triangle((frames - 1) % (2 * top), top);
                step >= 0 && strip.Cells() ==
                    ScanPicture(old(strip.Cells()), segment, step, dual, ShownColor(color1), ShownColor(color2))
      ensures runtime.cycle <==> frames > 0 && frames % (2 * (segment.Length() - segment.Size())) == 0
    {
      hide CellsOf, ScanPicture, Renderer.Cell, Unpacked, ScanNext, Triangle;
      var length: uint16, size := segment.Length(), segment.Size();
      ghost var cells, fg, bg := strip.Cells(), ShownColor(color1), ShownColor(color2);
      for i := 0 to frames
        invariant Valid() && Bounce(runtime.step, runtime.auxParam != 0) == ScanAfter(i, length, size)
        invariant ShownColor(color1) == fg && ShownColor(color2) == bg
        invariant strip.Cells() == if i == 0 then cells
                    else ScanPicture(cells, segment, ScanAfter(i - 1, length, size).step, dual, fg, bg)
        invariant runtime.cycle <==> i > 0 && ScanAfter(i, length, size).step == 0
      {
        ghost var before, step := strip.Cells(), runtime.step;
        BeginFrame();
        Scan(color1, color2, dual);
        assert ShownColor(color1) == fg && ShownColor(color2) == bg;
        assert strip.Cells() == ScanPicture(before, segment, step, dual, fg, bg);
        if i > 0 {
          ScanStepInside(i - 1, length, size);
          ScanStepInside(i, length, size);
          ScanPictureCovers(cells, segment, ScanAfter(i - 1, length, size).step, step, dual, fg, bg);
        }
      }
      ScanCycles(frames, length, size);
      if frames > 0 {
        ScanIsTriangle(frames - 1, length, size);
      }
    }

    /** A larson scanner leaves the trail of its triangle wave, and flags a cycle once per period. */
    method RunLarsonScanner(frames: nat)
      requires Valid() && segment.Addressable() && segment.Length() < 0x8000 && runtime == RESET
      modifies this`runtime, strip.pixels
      ensures Valid() && runtime.step == LarsonAfter(frames, segment.Length())
      ensures CellsFit(old(strip.Cells()), Render())
      ensures strip.Cells() == LarsonPicture(old(strip.Cells()), segment, Render(), frames)
      ensures runtime.cycle <==> frames > 0 && frames % LarsonPeriod(segment.Length()) == 0
    {
      hide CellsOf, FadedPicture, WithPixel, LarsonNext, Renderer.Cell, Unpacked;
      var length: uint16 := segment.Length();
      ghost var cells, r := strip.Cells(), Render();
      CellsHaveSize();
      LarsonIsTriangle(0, length);
      for i := 0 to frames
        invariant Valid() && Render() == r && runtime.step == LarsonAfter(i, length)
        invariant strip.Cells() == LarsonPicture(cells, segment, r, i)
        invariant runtime.cycle <==> i > 0 && LarsonAfter(i, length) == 0
      {
        BeginFrame();
        LarsonIsTriangle(i, length);
        ModeLarsonScanner();
        assert LitPixel(segment, i) == segment.PixelAt(LarsonOffset(LarsonAfter(i, length), length));
      }
      LarsonIsTriangle(frames, length);
    }

    /** Any number of fading frames over a segment. */
    method RunFadeOut(frames: nat, targetColor: uint32)
      requires Valid() && segment.Addressable()
      modifies strip.pixels
      ensures Valid() && CellsFit(old(strip.Cells()), Render())
      ensures strip.Cells() == FadedTimesPicture(old(strip.Cells()), segment, Render(), targetColor, frames)
      ensures Plain(Render()) && segment.FadeRate() == 0 && frames >= 8 ==>
                forall n :: 0 <= n < strip.numLeds && segment.Contains(n) ==> Black(strip.Cells()[n])
    {
      hide CellsOf, FadedPicture, FadedTimesPicture, Renderer.FadedCell;
      ghost var cells, r := strip.Cells(), Render();
      CellsHaveSize();
      NoFrames(cells, segment, r, targetColor);
      for i := 0 to frames
        invariant Valid() && Render() == r
        invariant strip.Cells() == FadedTimesPicture(cells, segment, r, targetColor, i)
      {
        FadeOut(targetColor);
        OneMoreFade(cells, segment, r, targetColor, i);
      }
      if Plain(r) && segment.FadeRate() == 0 && frames >= 8 {
        forall n: nat | n < strip.numLeds && segment.Contains(n) ensures Black(strip.Cells()[n]) {
          SegmentFadesToBlack(cells, segment, r, targetColor, frames, n);
        }
      }
    }
  }

  lemma NoFrames(cells: seq<seq<uint8>>, seg: Segment, r: Renderer, target: uint32)
    requires r.Valid() && CellsFit(cells, r)
    ensures FadedTimesPicture(cells, seg, r, target, 0) == cells
  {
  }

  lemma ScanStepInside(n: nat, length: uint16, size: uint8)
    requires size < length
    ensures ScanAfter(n, length, size).step + size <= length
  {
    ScanIsTriangle(n, length, size);
  }

  lemma ScanCycles(n: nat, length: uint16, size: uint8)
    requires size < length
    ensures ScanAfter(n, length, size).step == 0 <==> n % (2 * (length - size)) == 0
  {
    ScanIsTriangle(n, length, size);
  }

  // ---- Pictures of filling up ----

  /** A frame in state f, with the colours the way round they are then. */
  ghost function FillerFrame(cells: seq<seq<uint8>>, seg: Segment, f: Filler, first: seq<uint8>,
      second: seq<uint8>): (r: seq<seq<uint8>>)
    ensures |r| == |cells|
  {
    FillerPicture(cells, seg, f, if f.swapped then first else second, if f.swapped then second else first)
  }

  /** The picture after n frames from a reset: that of the last frame, over the original outside the segment. */
  ghost function FillerRun(cells: seq<seq<uint8>>, seg: Segment, first: seq<uint8>, second: seq<uint8>,
      n: nat): (r: seq<seq<uint8>>)
    requires seg.Addressable()
    ensures |r| == |cells|
  {
    if n == 0 then cells
    else FillerFrame(cells, seg, Emptied(FillerAfter(n - 1, seg.Length()), seg.Length()), first, second)
  }

  lemma FillerRunCovers(cells: seq<seq<uint8>>, seg: Segment, first: seq<uint8>, second: seq<uint8>, n: nat)
    requires seg.Addressable()
    ensures FillerRun(cells, seg, first, second, n + 1) ==
            FillerFrame(FillerRun(cells, seg, first, second, n), seg,
                Emptied(FillerAfter(n, seg.Length()), seg.Length()), first, second)
  {
    if n > 0 {
      var f := Emptied(FillerAfter(n - 1, seg.Length()), seg.Length());
      var g := Emptied(FillerAfter(n, seg.Length()), seg.Length());
      FillerPictureCovers(cells, seg, f, g, if f.swapped then first else second, if f.swapped then second else first,
          if g.swapped then first else second, if g.swapped then second else first);
    }
  }

  /** After a run every pixel counted as filled shows the filling colour. */
  lemma FillerRunIsFilled(cells: seq<seq<uint8>>, seg: Segment, first: seq<uint8>, second: seq<uint8>, n: nat)
    requires seg.Addressable()
    ensures var f := FillerAfter(n, seg.Length());
            forall p :: 0 <= p < |cells| && n > 0 && seg.Contains(p) && seg.DistanceOf(p) >= seg.Length() - f.filled ==>
              FillerRun(cells, seg, first, second, n)[p] == if f.swapped then first else second
  {
    if n > 0 {
      var before := Emptied(FillerAfter(n - 1, seg.Length()), seg.Length());
      forall p | 0 <= p < |cells| && seg.Contains(p)
          && seg.DistanceOf(p) >= seg.Length() - FillerAfter(n, seg.Length()).filled
        ensures FillerLights(seg, before, p)
      {
        FilledPartIsLit(seg, before, p);
      }
    }
  }

  /** What pixel p of a running segment shows after n frames, counted from the end the colours enter at. */
  ghost predicate RunningShows(cells: seq<seq<uint8>>, seg: Segment, first: seq<uint8>, second: seq<uint8>, n: nat,
      p: nat, shown: seq<uint8>)
    requires seg.start <= p <= seg.stop < |cells|
  {
    var reverse, size := seg.options >= 0x80, 2 * PowerOfTwo(seg.options / 2 % 4);
    var d := if reverse then seg.stop - p else p - seg.start;
    shown == if d >= n then cells[if reverse then p + n else p - n]
             else if (n - 1 - d) % (2 * size) >= size then first
             else second
  }

  lemma RunningPicture(cells: seq<seq<uint8>>, seg: Segment, entered: seq<seq<uint8>>, first: seq<uint8>,
      second: seq<uint8>)
    requires seg.start <= seg.stop < |cells|
    requires forall k :: 0 <= k < |entered| ==> entered[k] == if FirstColorAt(seg, k) then first else second
    ensures forall p: uint16 :: seg.start <= p <= seg.stop ==>
              RunningShows(cells, seg, first, second, |entered|, p, ShiftedAll(cells, seg, entered)[p])
  {
    hide RunningShows, ShiftedAll, FirstColorAt;
    forall p: uint16 | seg.start <= p <= seg.stop
      ensures RunningShows(cells, seg, first, second, |entered|, p, ShiftedAll(cells, seg, entered)[p])
    {
      RunningPixelIs(cells, seg, entered, first, second, p);
    }
  }

  lemma RunningPixelIs(cells: seq<seq<uint8>>, seg: Segment, entered: seq<seq<uint8>>, first: seq<uint8>,
      second: seq<uint8>, p: nat)
    requires seg.start <= p <= seg.stop < |cells|
    requires forall k :: 0 <= k < |entered| ==> entered[k] == if FirstColorAt(seg, k) then first else second
    ensures RunningShows(cells, seg, first, second, |entered|, p, ShiftedAll(cells, seg, entered)[p])
  {
    hide FirstColorAt, ShiftedAll;
    ShiftRegister(cells, seg, entered, p);
    if seg.DistanceOf(p) < |entered| {
      FirstColorIff(seg, |entered| - 1 - seg.DistanceOf(p));
    }
  }

  lemma FirstStep()
    ensures ToUint32(0) == 0
  {
  }

  lemma NextModulo(step: nat, period: nat)
    requires step < period
    ensures (step + 1) % period == if step == period - 1 then 0 else step + 1
  {
  }

  lemma NextStep(i: nat)
    ensures ToUint32(ToUint32(i) + 1) == ToUint32(i + 1)
  {
  }

  lemma ShiftedSlice(s: seq<uint8>, t: seq<uint8>, lo: nat, hi: nat, shift: int)
    requires lo <= hi <= |s| && 0 <= lo + shift && hi + shift <= |t|
    requires forall k :: lo <= k < hi ==> s[k] == t[k + shift]
    ensures s[lo..hi] == t[lo + shift..hi + shift]
  {
  }

  lemma OffsetsInOrder(rgb: bool, dest: nat, src: nat, count: nat, n: nat)
    ensures Offset(rgb, n) <= Offset(rgb, n + 1)
    ensures n < dest ==> Offset(rgb, n + 1) <= Offset(rgb, dest)
    ensures n >= dest + count ==> Offset(rgb, n) >= Offset(rgb, dest + count)
    ensures dest <= n < dest + count ==>
              var m, shift := src + (n - dest), Offset(rgb, src) - Offset(rgb, dest);
              && Offset(rgb, dest) <= Offset(rgb, n) && Offset(rgb, n + 1) <= Offset(rgb, dest + count)
              && Offset(rgb, m) == Offset(rgb, n) + shift && Offset(rgb, m + 1) == Offset(rgb, n + 1) + shift
              && Offset(rgb, m + 1) <= Offset(rgb, src + count)
  {
  }

  /** Pixel n of a buffer in which count pixels were moved from src to dest. */
  lemma MovedCell(before: seq<uint8>, after: seq<uint8>, rgb: bool, dest: nat, src: nat, count: nat, n: nat)
    requires |before| == |after| && Offset(rgb, n + 1) <= |before|
    requires Offset(rgb, dest + count) <= |before| && Offset(rgb, src + count) <= |before|
    requires forall k :: Offset(rgb, dest) <= k < Offset(rgb, dest + count) ==>
               after[k] == before[k + (Offset(rgb, src) - Offset(rgb, dest))]
    requires forall k :: 0 <= k < |after| && !(Offset(rgb, dest) <= k < Offset(rgb, dest + count)) ==>
               after[k] == before[k]
    ensures CellAt(after, rgb, n) == CellAt(before, rgb, if dest <= n < dest + count then src + (n - dest) else n)
  {
    OffsetsInOrder(rgb, dest, src, count, n);
    hide Offset;
    if dest <= n < dest + count {
      ShiftedSlice(after, before, Offset(rgb, n), Offset(rgb, n + 1), Offset(rgb, src) - Offset(rgb, dest));
    } else {
      ShiftedSlice(after, before, Offset(rgb, n), Offset(rgb, n + 1), 0);
    }
  }

  lemma MovedCells(before: seq<uint8>, after: seq<uint8>, rgb: bool, total: nat, dest: nat, src: nat, count: nat)
    requires |before| == |after| == Offset(rgb, total) && dest + count <= total && src + count <= total
    requires forall k :: Offset(rgb, dest) <= k < Offset(rgb, dest + count) ==>
               after[k] == before[k + (Offset(rgb, src) - Offset(rgb, dest))]
    requires forall k :: 0 <= k < |after| && !(Offset(rgb, dest) <= k < Offset(rgb, dest + count)) ==>
               after[k] == before[k]
    ensures CellsOf(after, rgb, total) == Moved(CellsOf(before, rgb, total), dest, src, count)
  {
    forall n: nat | n < total
      ensures CellAt(after, rgb, n) == CellAt(before, rgb, if dest <= n < dest + count then src + (n - dest) else n)
    {
      MovedCell(before, after, rgb, dest, src, count, n);
    }
  }
}
