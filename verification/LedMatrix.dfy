/**
  The 8x8 panel: rotated drawing on the strip, showing frames, and muting the output when the
  brightness is 0.
*/
module LedMatrix {
  import opened Words
  import opened Colors
  import opened PixelStrip
  import opened Rendering
  import opened Segments
  import opened Ws2812fx
  import opened RmtEncoder

  const WIDTH := 8
  const HEIGHT := 8
  const NUM_LEDS := 64

  // ---- Where a pixel is on the strip ----

  predicate OnPanel(x: int, y: int) {
    0 <= x < WIDTH && 0 <= y < HEIGHT
  }

  /** The LED at a position, for a rotation in quarter turns; columns run down from the top right. */
  function Xy(rotation: uint8, x: int, y: int): int {
    var (rx, ry) :=
      match rotation
      case 1 => (WIDTH - 1 - y, x)
      case 2 => (WIDTH - 1 - x, HEIGHT - 1 - y)
      case 3 => (y, HEIGHT - 1 - x)
      case _ => (x, y);
    (WIDTH - 1 - rx) * HEIGHT + ry
  }

  /** The position an LED shows. */
  function PositionOf(rotation: uint8, led: nat): (int, int) {
    var (rx, ry) := (WIDTH - 1 - led / HEIGHT, led % HEIGHT);
    match rotation
    case 1 => (ry, WIDTH - 1 - rx)
    case 2 => (WIDTH - 1 - rx, HEIGHT - 1 - ry)
    case 3 => (HEIGHT - 1 - ry, rx)
    case _ => (rx, ry)
  }

  /** Under every rotation positions and LEDs correspond one to one. */
  lemma RotationIsBijection(rotation: uint8, x: int, y: int, led: nat)
    requires OnPanel(x, y) && led < NUM_LEDS
    ensures 0 <= Xy(rotation, x, y) < NUM_LEDS && PositionOf(rotation, Xy(rotation, x, y)) == (x, y)
    ensures var (px, py) := PositionOf(rotation, led); OnPanel(px, py) && Xy(rotation, px, py) == led
  {
    PositionHasLed(rotation, x, y);
    LedHasPosition(rotation, led / HEIGHT, led % HEIGHT);
  }

  lemma PositionHasLed(rotation: uint8, x: int, y: int)
    requires OnPanel(x, y)
    ensures 0 <= Xy(rotation, x, y) < NUM_LEDS && PositionOf(rotation, Xy(rotation, x, y)) == (x, y)
  {
    var (rx, ry) := match rotation
      case 1 => (WIDTH - 1 - y, x)
      case 2 => (WIDTH - 1 - x, HEIGHT - 1 - y)
      case 3 => (y, HEIGHT - 1 - x)
      case _ => (x, y);
    RemainderIsUnique(Xy(rotation, x, y), HEIGHT, WIDTH - 1 - rx, ry);
  }

  lemma LedHasPosition(rotation: uint8, column: nat, row: nat)
    requires column < WIDTH && row < HEIGHT
    ensures var led := column * HEIGHT + row;
            var (px, py) := PositionOf(rotation, led);
            OnPanel(px, py) && Xy(rotation, px, py) == led
  {
    RemainderIsUnique(column * HEIGHT + row, HEIGHT, column, row);
  }

  /** Turning the panel by a quarter moves what was at (x, y) to (7 - y, x) of the unturned panel. */
  lemma QuarterTurns(rotation: uint8, x: int, y: int)
    requires OnPanel(x, y) && rotation < 3
    ensures Xy(rotation + 1, x, y) == Xy(rotation, WIDTH - 1 - y, x)
  {
  }

  // ---- Frames ----

  lemma BlackPixelsAreBlack(bytes: seq<uint8>, rgb: bool, count: nat)
    requires Offset(rgb, count) == |bytes|
    requires forall n :: 0 <= n < count ==> Black(CellsOf(bytes, rgb, count)[n])
    ensures Black(bytes)
  {
    forall i | 0 <= i < |bytes| ensures bytes[i] == 0 {
      var n := if rgb then i / 3 else i / 4;
      assert Offset(rgb, n) <= i < Offset(rgb, n + 1);
      assert CellsOf(bytes, rgb, count)[n][i - Offset(rgb, n)] == bytes[i];
    }
  }

  // ---- Bitmaps ----

  /** The bitmap's rows above y, and row y up to x, are on the panel. */
  ghost predicate Drawn(rotation: uint8, r: Renderer, bitmap: seq<uint32>, y: nat, x: nat, cells: seq<seq<uint8>>)
    requires r.Valid() && |bitmap| == NUM_LEDS
  {
    && (|cells| == NUM_LEDS || |cells| == 0)
    && forall led: nat :: led < |cells| ==>
         var (px, py) := PositionOf(rotation, led);
         OnPanel(px, py) && (py < y || (py == y && px < x) ==> cells[led] == r.Cell(Unpacked(bitmap[py * WIDTH + px])))
  }

  lemma NothingDrawn(rotation: uint8, r: Renderer, bitmap: seq<uint32>, cells: seq<seq<uint8>>)
    requires r.Valid() && |bitmap| == NUM_LEDS && (|cells| == NUM_LEDS || |cells| == 0)
    ensures Drawn(rotation, r, bitmap, 0, 0, cells)
  {
    forall led: nat | led < |cells|
      ensures OnPanel(PositionOf(rotation, led).0, PositionOf(rotation, led).1)
    {
      RotationIsBijection(rotation, 0, 0, led);
    }
  }

  lemma DrawnPixel(rotation: uint8, r: Renderer, bitmap: seq<uint32>, y: nat, x: nat, cells: seq<seq<uint8>>)
    requires r.Valid() && |bitmap| == NUM_LEDS && OnPanel(x, y) && Drawn(rotation, r, bitmap, y, x, cells)
    ensures Xy(rotation, x, y) >= 0
    ensures Drawn(rotation, r, bitmap, y, x + 1,
              WithPixel(cells, Xy(rotation, x, y), r.Cell(Unpacked(bitmap[y * WIDTH + x]))))
  {
    hide Xy, PositionOf, Renderer.Cell, Unpacked, WithPixel;
    RotationIsBijection(rotation, x, y, 0);
    var at, cell := Xy(rotation, x, y), r.Cell(Unpacked(bitmap[y * WIDTH + x]));
    var after := WithPixel(cells, at, cell);
    forall led: nat | led < |cells|
      ensures var (px, py) := PositionOf(rotation, led);
              OnPanel(px, py)
                  && (py < y || (py == y && px < x + 1) ==> after[led] == r.Cell(Unpacked(bitmap[py * WIDTH + px])))
    {
      RotationIsBijection(rotation, x, y, led);
      PixelOf(cells, at, cell, led);
      var (px, py) := PositionOf(rotation, led);
      if led != at {
        assert px != x || py != y;
      }
    }
  }

  lemma DrawnRow(rotation: uint8, r: Renderer, bitmap: seq<uint32>, y: nat, cells: seq<seq<uint8>>)
    requires r.Valid() && |bitmap| == NUM_LEDS && y < HEIGHT && Drawn(rotation, r, bitmap, y, WIDTH, cells)
    ensures Drawn(rotation, r, bitmap, y + 1, 0, cells)
  {
  }

  /** A frame shows a bitmap when the LED at every position has the bitmap's colour for that position. */
  ghost predicate FrameShows(frame: seq<nat>, rotation: uint8, r: Renderer, bitmap: seq<uint32>)
    requires r.Valid() && |bitmap| == NUM_LEDS
  {
    var rgb := r.layout.IsRgb();
    && |frame| == Offset(rgb, NUM_LEDS)
    && forall x, y :: OnPanel(x, y) ==>
         var led := Xy(rotation, x, y);
         0 <= led < NUM_LEDS && frame[Offset(rgb, led)..Offset(rgb, led + 1)] == r.Cell(Unpacked(bitmap[y * WIDTH + x]))
  }

  /** Decoding the pulses of a drawn frame gives the bitmap, scaled, at its rotated positions. */
  lemma PulsesShowBitmap(bytes: seq<uint8>, rotation: uint8, r: Renderer, bitmap: seq<uint32>)
    requires r.Valid() && |bitmap| == NUM_LEDS && |bytes| == Offset(r.layout.IsRgb(), NUM_LEDS)
    requires Drawn(rotation, r, bitmap, HEIGHT, 0, CellsOf(bytes, r.layout.IsRgb(), NUM_LEDS))
    ensures FrameShows(Decode(Encode(bytes)), rotation, r, bitmap)
  {
    hide Renderer.Cell, Unpacked, Decode, Encode;
    DecodeOfEncode(bytes);
    var rgb := r.layout.IsRgb();
    forall x, y | OnPanel(x, y)
      ensures var led := Xy(rotation, x, y);
              0 <= led < NUM_LEDS
                  && bytes[Offset(rgb, led)..Offset(rgb, led + 1)] == r.Cell(Unpacked(bitmap[y * WIDTH + x]))
    {
      RotationIsBijection(rotation, x, y, 0);
      var led := Xy(rotation, x, y);
      assert CellsOf(bytes, rgb, NUM_LEDS)[led] == CellAt(bytes, rgb, led);
    }
  }

  /** The pixel type of the board: bytes in the order red, green, blue. */
  const BOARD_PIXEL_TYPE: uint16 := 6

  /**
    What the board's panel shows, byte by byte: columns of the bitmap from the right, each from the top,
    turned by quarters, and three bytes per LED for red, green and blue, each times the factor over 256.
  */
  ghost predicate BoardShows(frame: seq<nat>, rotation: uint8, bitmap: seq<uint32>, factor: uint8)
    requires |bitmap| == 64
  {
    && |frame| == 192
    && forall x, y :: 0 <= x < 8 && 0 <= y < 8 ==>
         BoardPixelShows(frame, rotation, x, y, bitmap, factor)
  }

  predicate BoardPixelShows(frame: seq<nat>, rotation: uint8, x: nat, y: nat, bitmap: seq<uint32>, factor: uint8)
    requires |frame| == 192 && |bitmap| == 64 && x < 8 && y < 8
  {
    var color := bitmap[y * 8 + x];
    var i := 3 * (if rotation == 1 then y * 8 + x else if rotation == 2 then x * 8 + (7 - y)
                  else if rotation == 3 then (7 - y) * 8 + (7 - x) else (7 - x) * 8 + y);
    && frame[i] == color / 0x1_0000 % 0x100 * factor / 256
    && frame[i + 1] == color / 0x100 % 0x100 * factor / 256
    && frame[i + 2] == color % 0x100 * factor / 256
  }

  /** On the board, showing a bitmap is that. */
  lemma BoardFrame(frame: seq<nat>, rotation: uint8, r: Renderer, bitmap: seq<uint32>)
    requires r.Valid() && |bitmap| == NUM_LEDS && FrameShows(frame, rotation, r, bitmap)
    requires r.layout == LayoutOf(BOARD_PIXEL_TYPE) && r.brightness != 0 && !r.corrected
    ensures BoardShows(frame, rotation, bitmap, r.brightness)
  {
    OffsetsOfType(0, 0, 1, 2, 0);
    hide BoardPixelShows, Xy, Renderer.Cell, Unpacked;
    forall x, y | 0 <= x < 8 && 0 <= y < 8 ensures BoardPixelShows(frame, rotation, x, y, bitmap, r.brightness) {
      BoardPixel(frame, rotation, r, bitmap, x, y);
    }
  }

  lemma BoardPixel(frame: seq<nat>, rotation: uint8, r: Renderer, bitmap: seq<uint32>, x: nat, y: nat)
    requires r.Valid() && |bitmap| == NUM_LEDS && FrameShows(frame, rotation, r, bitmap) && OnPanel(x, y)
    requires r.layout == Layout(0, 1, 2, 0) && r.brightness != 0 && !r.corrected
    ensures |frame| == 192 && BoardPixelShows(frame, rotation, x, y, bitmap, r.brightness)
  {
    hide Xy, Renderer.Cell, Unpacked;
    var led := Xy(rotation, x, y);
    BoardLed(rotation, x, y);
    BoardCell(r, bitmap[y * 8 + x]);
    BoardBytes(frame, led, r.Cell(Unpacked(bitmap[y * 8 + x])));
  }

  lemma BoardBytes(frame: seq<nat>, led: nat, cell: seq<uint8>)
    requires 3 * led + 3 <= |frame| && |cell| == 3 && frame[3 * led..3 * led + 3] == cell
    ensures frame[3 * led] == cell[0] && frame[3 * led + 1] == cell[1] && frame[3 * led + 2] == cell[2]
  {
  }

  lemma BoardCell(r: Renderer, color: uint32)
    requires r.Valid() && r.layout == Layout(0, 1, 2, 0) && r.brightness != 0 && !r.corrected
    ensures r.Cell(Unpacked(color)) == [color / 0x1_0000 % 0x100 * r.brightness / 256,
                                        color / 0x100 % 0x100 * r.brightness / 256,
                                        color % 0x100 * r.brightness / 256]
  {
  }

  lemma BoardLed(rotation: uint8, x: nat, y: nat)
    requires x < 8 && y < 8
    ensures Xy(rotation, x, y) == if rotation == 1 then y * 8 + x else if rotation == 2 then x * 8 + (7 - y)
              else if rotation == 3 then (7 - y) * 8 + (7 - x) else (7 - x) * 8 + y
  {
  }

  /** A frame that is sent arrives as it is. */
  lemma SentFrameArrives(line: Line, call: Call)
    requires Sends(line, call)
    ensures var sent := AfterCall(line, call).sent;
            |sent| == |line.sent| + 1 && Decode(sent[|line.sent|]) == call.pixels
  {
    DecodeOfEncode(call.pixels);
  }

  class LedMatrix {
    /** Missing until the panel is started. */
    var strip: Ws2812fx?
    var brightness: uint8
    var rotation: uint8
    var outputMuted: bool

    ghost predicate Valid()
      reads this, strip, if strip == null then {} else {strip.strip}
    {
      && rotation < 4
      && (strip != null ==>
            strip.Valid() && strip.gamma8[0] == 0 && (strip.strip.numLeds == NUM_LEDS || strip.strip.numLeds == 0))
    }

    /** The output is never sent unscaled, and a muted panel shows black. */
    ghost predicate Safe()
      reads this, strip, if strip == null then {} else {strip.strip}
    {
      && (outputMuted <==> brightness == 0)
      && (strip != null ==>
            && strip.strip.brightness == (if brightness == 0 then 1 else brightness)
            && (outputMuted ==> Black(strip.frame)))
    }

    ghost function Cells(): seq<seq<uint8>>
      requires Valid() && strip != null
      reads this, strip, if strip == null then {} else {strip.strip, strip.strip.pixels}
    {
      strip.strip.Cells()
    }

    constructor ()
      ensures Valid() && Safe() && strip == null && brightness == 50 && rotation == 0
    {
      strip, brightness, rotation, outputMuted := null, 50, 0, false;
    }

    /** Starts the strip; without memory for its pixels it has none. */
    method Begin(pixelType: uint16, gamma8: seq<uint8>, memory: bool)
      requires Valid() && Safe() && LayoutOf(pixelType).WellFormed() && |gamma8| == 256 && gamma8[0] == 0
      modifies this`strip
      ensures Valid() && Safe() && strip != null && fresh(strip) && fresh(strip.strip) && fresh(strip.strip.pixels)
      ensures Black(strip.frame) && strip.frame == strip.strip.pixels[..]
      ensures strip.strip.layout == LayoutOf(pixelType) && strip.strip.numLeds == if memory then NUM_LEDS else 0
      ensures strip.segment == Segment(0, NUM_LEDS - 1, 0, 0, 0, 0)
    {
      strip := NewStrip(pixelType, gamma8, if brightness == 0 then 1 else brightness, memory);
      FillScreen(0);
      PixelsAreBlack();
      Show();
    }

    /** A strip with one segment over all LEDs, cleared and shown. */
    static method NewStrip(pixelType: uint16, gamma8: seq<uint8>, b: uint8, memory: bool) returns (fx: Ws2812fx)
      requires LayoutOf(pixelType).WellFormed() && |gamma8| == 256
      ensures fresh(fx) && fresh(fx.strip) && fresh(fx.strip.pixels) && fx.Valid() && fx.gamma8 == gamma8
      ensures fx.strip.layout == LayoutOf(pixelType) && fx.strip.numLeds == if memory then NUM_LEDS else 0
      ensures fx.strip.brightness == b && fx.frame == fx.strip.pixels[..] && Black(fx.frame)
      ensures fx.segment == Segment(0, NUM_LEDS - 1, 0, 0, 0, 0)
    {
      var pixels := new NeoPixel(pixelType);
      pixels.UpdateLength(NUM_LEDS, memory);
      fx := new Ws2812fx(NUM_LEDS, pixels, gamma8);
      fx.SetBrightness(b);
      fx.segment := Segment(0, NUM_LEDS - 1, 0, 0, 0, 0);
      pixels.Clear();
      fx.ExecShow();
    }

    method SetPixel(x: int, y: int, color: uint32)
      requires Valid()
      modifies if strip == null then {} else {strip.strip.pixels}
      ensures Valid()
      ensures strip != null ==>
                Cells() == if OnPanel(x, y) then WithPixel(old(Cells()), Xy(rotation, x, y), strip.ShownColor(color))
                    else old(Cells())
    {
      if strip == null || x < 0 || x >= WIDTH || y < 0 || y >= HEIGHT {
        return;
      }
      RotationIsBijection(rotation, x, y, 0);
      strip.SetPixelColor(Xy(rotation, x, y), color);
    }

    method FillScreen(color: uint32)
      requires Valid()
      modifies if strip == null then {} else {strip.strip.pixels}
      ensures Valid()
      ensures strip != null ==> forall n :: 0 <= n < strip.strip.numLeds ==> Cells()[n] == strip.ShownColor(color)
    {
      hide CellsOf, Ws2812fx.Shown, Ws2812fx.ShownColor;
      if strip != null {
        var fx := strip;
        ghost var cell := fx.ShownColor(color);
        for i: uint16 := 0 to NUM_LEDS
          invariant Valid() && fx.ShownColor(color) == cell
          invariant forall n :: 0 <= n < i && n < fx.strip.numLeds ==> fx.strip.Cells()[n] == cell
        {
          fx.SetPixelColor(i, color);
        }
      }
    }

    /** Every position shows the bitmap's colour for it; the rows of the bitmap run from top to bottom. */
    method DrawBitmap(bitmap: seq<uint32>)
      requires Valid() && |bitmap| == NUM_LEDS
      modifies if strip == null then {} else {strip.strip.pixels}
      ensures Valid()
      ensures strip != null ==> Drawn(rotation, strip.Render(), bitmap, HEIGHT, 0, Cells())
    {
      if strip == null {
        return;
      }
      hide CellsOf, Drawn, Renderer.Cell, Unpacked;
      ghost var r := strip.Render();
      NothingDrawn(rotation, r, bitmap, Cells());
      for y := 0 to HEIGHT
        invariant Valid() && strip.Render() == r && Drawn(rotation, r, bitmap, y, 0, Cells())
      {
        DrawRow(bitmap, y);
        DrawnRow(rotation, r, bitmap, y, Cells());
      }
    }

    method DrawRow(bitmap: seq<uint32>, y: nat)
      requires Valid() && strip != null && |bitmap| == NUM_LEDS && y < HEIGHT
      requires Drawn(rotation, strip.Render(), bitmap, y, 0, Cells())
      modifies strip.strip.pixels
      ensures Valid() && Drawn(rotation, strip.Render(), bitmap, y, WIDTH, Cells())
    {
      hide CellsOf, Drawn, WithPixel, Renderer.Cell, Unpacked, Xy, PositionOf;
      ghost var r := strip.Render();
      for x := 0 to WIDTH
        invariant Valid() && strip.Render() == r && Drawn(rotation, r, bitmap, y, x, Cells())
      {
        DrawnPixel(rotation, r, bitmap, y, x, Cells());
        SetPixel(x, y, bitmap[y * WIDTH + x]);
        assert strip.ShownColor(bitmap[y * WIDTH + x]) == r.Cell(Unpacked(bitmap[y * WIDTH + x]));
      }
    }

    method Show()
      requires Valid() && Safe()
      modifies if strip == null then {} else {strip, strip.strip.pixels}
      ensures Valid() && Safe()
      ensures strip != null ==> strip.frame == strip.strip.pixels[..] && strip.segment == old(strip.segment)
      ensures strip != null && !outputMuted ==> strip.strip.pixels[..] == old(strip.strip.pixels[..])
    {
      if strip != null {
        if outputMuted {
          FillScreen(0);
          PixelsAreBlack();
        }
        strip.ExecShow();
      }
    }

    lemma ColorZeroIsBlack()
      requires Valid() && strip != null
      ensures Black(strip.ShownColor(0))
    {
      assert Unpacked(0) == BLACK;
      assert Stored(BLACK, strip.strip.brightness) == BLACK;
    }

    lemma PixelsAreBlack()
      requires Valid() && strip != null
      requires forall n :: 0 <= n < strip.strip.numLeds ==> Cells()[n] == strip.ShownColor(0)
      ensures Black(strip.strip.pixels[..])
    {
      hide Ws2812fx.ShownColor;
      ColorZeroIsBlack();
      var bytes, rgb, count := strip.strip.pixels[..], strip.strip.layout.IsRgb(), strip.strip.numLeds;
      assert Cells() == CellsOf(bytes, rgb, count);
      forall n: nat | n < count ensures Black(CellsOf(bytes, rgb, count)[n]) {
        assert Cells()[n] == strip.ShownColor(0);
      }
      BlackPixelsAreBlack(bytes, rgb, count);
    }

    /** A rendered frame is drawn and shown as a whole. */
    method PresentFrame(bitmap: seq<uint32>)
      requires Valid() && Safe() && |bitmap| == NUM_LEDS
      modifies if strip == null then {} else {strip, strip.strip.pixels}
      ensures Valid() && Safe()
      ensures strip != null && strip.strip.numLeds == NUM_LEDS && !outputMuted ==>
                FrameShows(Decode(Encode(strip.frame)), rotation, strip.Render(), bitmap)
      ensures strip != null && outputMuted ==> Black(strip.frame)
      ensures strip != null ==> strip.segment == old(strip.segment)
    {
      hide Drawn, FrameShows, Encode, Decode, Renderer.Cell, CellsOf;
      DrawBitmap(bitmap);
      Show();
      if strip != null && strip.strip.numLeds == NUM_LEDS && !outputMuted {
        PulsesShowBitmap(strip.frame, rotation, strip.Render(), bitmap);
      }
    }

    /**
      From the bitmap to the wire: whenever the line sends anything, what arrives is the bitmap at
      its rotated positions, or black while muted.
    */
    method TransmitFrame(bitmap: seq<uint32>, line: RmtLine, pin: uint8, inTime: bool, memory: bool, initialises: bool)
      requires Valid() && Safe() && |bitmap| == NUM_LEDS && strip != null && strip.strip.numLeds == NUM_LEDS
                 && line.Valid()
      modifies strip, strip.strip.pixels, line, line.ledData
      ensures Valid() && Safe() && line.Valid() && strip.segment == old(strip.segment)
      ensures var call := Call(pin, strip.frame, inTime, memory, initialises);
              && line.Abstract() == AfterCall(old(line.Abstract()), call)
              && (Sends(old(line.Abstract()), call) ==>
                    var n := |old(line.sent)|;
                    && |line.sent| == n + 1
                    && (if outputMuted then Black(strip.frame) && Decode(line.sent[n]) == strip.frame
                        else FrameShows(Decode(line.sent[n]), rotation, strip.Render(), bitmap)))
    {
      hide FrameShows, Encode, Decode, Renderer.Cell, CellsOf, Sends, AfterCall;
      PresentFrame(bitmap);
      DecodeOfEncode(strip.frame);
      ghost var call := Call(pin, strip.frame, inTime, memory, initialises);
      if Sends(line.Abstract(), call) {
        SentFrameArrives(line.Abstract(), call);
      }
      line.EspShow(pin, strip.frame, inTime, memory, initialises);
    }

    method SetBrightness(b: uint8)
      requires Valid() && Safe()
      modifies this`brightness, this`outputMuted, if strip == null then {} else {strip, strip.strip, strip.strip.pixels}
      ensures Valid() && Safe() && brightness == b
      ensures strip != null ==>
                && strip.segment == old(strip.segment) && strip.strip.layout == old(strip.strip.layout)
                && strip.strip.numLeds == old(strip.strip.numLeds) && strip.strip.pixels == old(strip.strip.pixels)
      ensures strip != null ==> strip.frame == strip.strip.pixels[..]
      ensures strip != null && b != 0 ==> strip.strip.pixels[..] == old(strip.strip.pixels[..])
    {
      brightness := b;
      outputMuted := b == 0;
      if strip != null {
        strip.SetBrightness(if outputMuted then 1 else b);
        if outputMuted {
          FillScreen(0);
          PixelsAreBlack();
          strip.ExecShow();
        }
      }
    }

    method SetRotation(r: uint8)
      requires Valid() && Safe()
      modifies this`rotation
      ensures Valid() && Safe() && rotation == r % 4
    {
      rotation := r % 4;
    }

    /** When a frame is due, lets the running effect, whatever it draws, make it. */
    method Service(due: bool, effect: seq<uint8>)
      requires Valid() && Safe() && (strip != null ==> |effect| == strip.strip.pixels.Length)
      modifies if strip == null then {} else {strip, strip.strip.pixels}
      ensures Valid() && Safe()
      ensures strip != null ==> strip.frame == if outputMuted || !due then old(strip.frame) else effect
      ensures strip != null && (outputMuted || !due) ==> strip.strip.pixels[..] == old(strip.strip.pixels[..])
    {
      if strip != null && !outputMuted && due {
        var pixels := strip.strip.pixels;
        for i := 0 to pixels.Length
          invariant pixels[..i] == effect[..i]
          modifies pixels
        {
          pixels[i] := effect[i];
        }
        strip.ExecShow();
      }
    }
  }

  /**
    From power-on to the wire on the board's own panel: a panel that is started, dimmed and turned, and then
    given a bitmap, sends that bitmap byte by byte, or black at brightness 0.
  */
  method SendOnBoard(bitmap: seq<uint32>, b: uint8, rotation: uint8, gamma8: seq<uint8>, line: RmtLine, pin: uint8,
      inTime: bool, memory: bool, initialises: bool) returns (panel: LedMatrix)
    requires |bitmap| == 64 && |gamma8| == 256 && gamma8[0] == 0 && line.Valid()
    modifies line, line.ledData
    ensures panel.Valid() && panel.Safe() && panel.strip != null && line.Valid()
    ensures var call := Call(pin, panel.strip.frame, inTime, memory, initialises);
            && line.Abstract() == AfterCall(old(line.Abstract()), call)
            && (Sends(old(line.Abstract()), call) ==>
                  var n := |old(line.sent)|;
                  && |line.sent| == n + 1
                  && (if b == 0 then Black(panel.strip.frame) && Decode(line.sent[n]) == panel.strip.frame
                      else BoardShows(Decode(line.sent[n]), rotation % 4, bitmap, b)))
  {
    hide FrameShows, BoardShows, Encode, Decode, Sends, Black;
    OffsetsOfType(0, 0, 1, 2, 0);
    panel := new LedMatrix();
    panel.Begin(BOARD_PIXEL_TYPE, gamma8, true);
    panel.SetBrightness(b);
    panel.SetRotation(rotation);
    assert !panel.strip.Render().corrected;
    panel.TransmitFrame(bitmap, line, pin, inTime, memory, initialises);
    ghost var n, call := |old(line.sent)|, Call(pin, panel.strip.frame, inTime, memory, initialises);
    if b != 0 && Sends(old(line.Abstract()), call) {
      BoardFrame(Decode(line.sent[n]), panel.rotation, panel.strip.Render(), bitmap);
    }
  }
}
