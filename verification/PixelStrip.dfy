/**
  The strip driver: a packed buffer of three or four bytes per LED whose colours are
  pre-multiplied by the brightness when they are written.
*/
module PixelStrip {
  import opened Words
  import opened Colors

  /** Offsets of the channels inside a pixel; white shares red's offset on RGB strips. */
  datatype Layout = Layout(r: nat, g: nat, b: nat, w: nat) {
    predicate IsRgb() {
      w == r
    }

    /** A permutation of the bytes of a pixel, as every named pixel type is. */
    predicate WellFormed() {
      && r != g && r != b && g != b
      && if IsRgb() then r < 3 && g < 3 && b < 3
         else r < 4 && g < 4 && b < 4 && w < 4 && w != g && w != b
    }

    function BytesPerPixel(): nat {
      if IsRgb() then 3 else 4
    }

    /** The byte at offset k of a pixel. */
    function Byte(p: Rgbw, k: nat): uint8 {
      if k == r then p.r else if k == g then p.g else if k == b then p.b else p.w
    }

    function Bytes(p: Rgbw): (cell: seq<uint8>)
      ensures |cell| == BytesPerPixel()
    {
      if IsRgb() then [Byte(p, 0), Byte(p, 1), Byte(p, 2)] else [Byte(p, 0), Byte(p, 1), Byte(p, 2), Byte(p, 3)]
    }

    /** The channels found in a pixel's bytes. */
    function Channels(cell: seq<uint8>): Rgbw
      requires WellFormed() && |cell| == BytesPerPixel()
    {
      Rgbw(cell[r], cell[g], cell[b], if IsRgb() then 0 else cell[w])
    }
  }

  /** The offsets encoded in a pixel type as 0bWWRRGGBB. */
  function LayoutOf(pixelType: uint16): Layout {
    Layout(pixelType / 16 % 4, pixelType / 4 % 4, pixelType % 4, pixelType / 64 % 4)
  }

  /** Each two bits of a pixel type are the offset of their channel, whatever the speed flag above them is. */
  lemma OffsetsOfType(w: nat, r: nat, g: nat, b: nat, flags: nat)
    requires w < 4 && r < 4 && g < 4 && b < 4 && flags < 256
    ensures LayoutOf(256 * flags + 64 * w + 16 * r + 4 * g + b) == Layout(r, g, b, w)
  {
    var t := 256 * flags + 64 * w + 16 * r + 4 * g + b;
    RemainderIsUnique(t, 4, 64 * flags + 16 * w + 4 * r + g, b);
    RemainderIsUnique(64 * flags + 16 * w + 4 * r + g, 4, 16 * flags + 4 * w + r, g);
    RemainderIsUnique(t, 16, 16 * flags + 4 * w + r, 4 * g + b);
    RemainderIsUnique(16 * flags + 4 * w + r, 4, 4 * flags + w, r);
    RemainderIsUnique(t, 64, 4 * flags + w, 16 * r + 4 * g + b);
    RemainderIsUnique(4 * flags + w, 4, flags, w);
  }

  lemma ChannelsOfBytes(l: Layout, p: Rgbw)
    requires l.WellFormed()
    ensures l.Channels(l.Bytes(p)) == if l.IsRgb() then p.(w := 0) else p
  {
  }

  /** Where the bytes of pixel n start. */
  function Offset(rgb: bool, n: nat): nat {
    if rgb then 3 * n else 4 * n
  }

  /** The bytes of pixel n. */
  function CellAt(bytes: seq<uint8>, rgb: bool, n: nat): seq<uint8>
    requires Offset(rgb, n + 1) <= |bytes|
  {
    bytes[Offset(rgb, n)..Offset(rgb, n + 1)]
  }

  /** A buffer cut into pixels. */
  function CellsOf(bytes: seq<uint8>, rgb: bool, count: nat): (cells: seq<seq<uint8>>)
    requires Offset(rgb, count) == |bytes|
    ensures |cells| == count
    ensures forall n :: 0 <= n < count ==> cells[n] == CellAt(bytes, rgb, n)
  {
    seq(count, n requires 0 <= n < count && Offset(rgb, count) == |bytes| => CellAt(bytes, rgb, n))
  }

  /** A buffer with the bytes of one pixel replaced. */
  function WithCell(bytes: seq<uint8>, rgb: bool, n: nat, cell: seq<uint8>): (r: seq<uint8>)
    requires Offset(rgb, n + 1) <= |bytes| && |cell| == Offset(rgb, 1)
    ensures |r| == |bytes|
  {
    bytes[..Offset(rgb, n)] + cell + bytes[Offset(rgb, n + 1)..]
  }

  lemma CellAfterReplace(bytes: seq<uint8>, rgb: bool, n: nat, cell: seq<uint8>, m: nat)
    requires Offset(rgb, n + 1) <= |bytes| && |cell| == Offset(rgb, 1) && Offset(rgb, m + 1) <= |bytes|
    ensures CellAt(WithCell(bytes, rgb, n, cell), rgb, m) == if m == n then cell else CellAt(bytes, rgb, m)
  {
    var after := WithCell(bytes, rgb, n, cell);
    assert forall k :: Offset(rgb, m) <= k < Offset(rgb, m + 1) ==>
             after[k] == if m == n then cell[k - Offset(rgb, m)] else bytes[k];
  }

  lemma ReplacedCells(bytes: seq<uint8>, rgb: bool, count: nat, n: nat, cell: seq<uint8>)
    requires Offset(rgb, count) == |bytes| && n < count && |cell| == Offset(rgb, 1)
    ensures CellsOf(WithCell(bytes, rgb, n, cell), rgb, count) == CellsOf(bytes, rgb, count)[n := cell]
  {
    forall m: nat | m < count
      ensures CellAt(WithCell(bytes, rgb, n, cell), rgb, m) == if m == n then cell else CellAt(bytes, rgb, m)
    {
      CellAfterReplace(bytes, rgb, n, cell, m);
    }
  }

  ghost predicate AtMost(bytes: seq<uint8>, limit: uint8) {
    forall i :: 0 <= i < |bytes| ==> bytes[i] <= limit
  }

  /** Scaling by a brightness factor gives bytes that respect the brightness. */
  lemma StoredIsBounded(l: Layout, p: Rgbw, br: uint8, limit: uint8)
    requires limit == WrapDecrement(br)
    ensures AtMost(l.Bytes(Stored(p, br)), limit)
  {
  }

  /** The same cell written to every pixel of a range. */
  function Painted(cells: seq<seq<uint8>>, first: nat, end: nat, cell: seq<uint8>): (r: seq<seq<uint8>>)
    ensures |r| == |cells|
  {
    seq(|cells|, n requires 0 <= n < |cells| => if first <= n < end then cell else cells[n])
  }

  function Stored(p: Rgbw, br: uint8): Rgbw {
    Rgbw(Scaled(p.r, br), Scaled(p.g, br), Scaled(p.b, br), Scaled(p.w, br))
  }

  /** The packed colour read back from stored channels. */
  function ReadColor(p: Rgbw, br: uint8): uint32 {
    Packed(ReadBack(p.r, br), ReadBack(p.g, br), ReadBack(p.b, br), ReadBack(p.w, br))
  }

  /** Pixel indices that fill touches: from first up to but not including this. */
  function FillEnd(first: uint16, count: uint16, numLeds: uint16): uint16 {
    if count == 0 then numLeds
    else
      var end := (first + count) % 0x1_0000;
      if end > numLeds then numLeds else end
  }

  class NeoPixel {
    var numLeds: uint16
    /** The brightness plus one, wrapped: 0 stands for full, unscaled brightness. */
    var brightness: uint8
    var layout: Layout
    var pixels: array<uint8>

    ghost predicate Shaped()
      reads this
    {
      && layout.WellFormed()
      && pixels.Length == Offset(layout.IsRgb(), numLeds) < 0x1_0000
    }

    function GetBrightness(): uint8
      reads this
    {
      WrapDecrement(brightness)
    }

    /** No stored byte exceeds the brightness it was scaled by. */
    ghost predicate Bounded()
      reads this, pixels
    {
      AtMost(pixels[..], GetBrightness())
    }

    ghost function Cells(): (cells: seq<seq<uint8>>)
      requires Shaped()
      reads this, pixels
    {
      CellsOf(pixels[..], layout.IsRgb(), numLeds)
    }

    /** Writes the channels of the pixel whose bytes start at the given index, already scaled. */
    method WriteBytes(at: nat, p: Rgbw)
      requires layout.WellFormed() && at + layout.BytesPerPixel() <= pixels.Length
      modifies pixels
      ensures forall k :: 0 <= k < layout.BytesPerPixel() ==> pixels[at + k] == layout.Byte(p, k)
      ensures forall i :: 0 <= i < pixels.Length && !(at <= i < at + layout.BytesPerPixel()) ==>
                pixels[i] == old(pixels[i])
    {
      if !layout.IsRgb() {
        pixels[at + layout.w] := p.w;
      }
      pixels[at + layout.r] := p.r;
      pixels[at + layout.g] := p.g;
      pixels[at + layout.b] := p.b;
    }

    method Store(n: nat, p: Rgbw)
      requires Shaped() && n < numLeds
      modifies pixels
      ensures Shaped()
      ensures pixels[..] == WithCell(old(pixels[..]), layout.IsRgb(), n, layout.Bytes(p))
      ensures Cells() == old(Cells())[n := layout.Bytes(p)]
      ensures AtMost(layout.Bytes(p), GetBrightness()) && old(Bounded()) ==> Bounded()
    {
      ghost var bytes := pixels[..];
      var at := Offset(layout.IsRgb(), n);
      WriteBytes(at, p);
      SplicedBytes(bytes, pixels[..], at, layout.Bytes(p));
      ReplacedCells(bytes, layout.IsRgb(), numLeds, n, layout.Bytes(p));
    }

    constructor (pixelType: uint16)
      ensures fresh(pixels) && numLeds == 0 && brightness == 0 && layout == LayoutOf(pixelType) && pixels.Length == 0
      ensures Bounded() && (Shaped() <==> layout.WellFormed())
    {
      numLeds, brightness := 0, 0;
      layout := LayoutOf(pixelType);
      pixels := new uint8[0];
    }

    method SetPixelColorRgbw(n: uint16, r: uint8, g: uint8, b: uint8, w: uint8)
      requires Shaped()
      modifies pixels
      ensures Shaped() && (old(Bounded()) ==> Bounded())
      ensures Cells() == if n < numLeds then old(Cells())[n := layout.Bytes(Stored(Rgbw(r, g, b, w), brightness))]
                else old(Cells())
    {
      if n < numLeds {
        var p := Rgbw(r, g, b, w);
        if brightness != 0 {
          p := Rgbw(Scaled(r, brightness), Scaled(g, brightness), Scaled(b, brightness), Scaled(w, brightness));
        }
        StoredIsBounded(layout, Rgbw(r, g, b, w), brightness, GetBrightness());
        Store(n, p);
      }
    }

    /** On an RGBW strip the white channel is cleared. */
    method SetPixelColorRgb(n: uint16, r: uint8, g: uint8, b: uint8)
      requires Shaped()
      modifies pixels
      ensures Shaped() && (old(Bounded()) ==> Bounded())
      ensures Cells() == if n < numLeds then old(Cells())[n := layout.Bytes(Stored(Rgbw(r, g, b, 0), brightness))]
                else old(Cells())
    {
      hide CellsOf, WithCell, AtMost, Layout.Bytes;
      if n < numLeds {
        var p := Rgbw(r, g, b, 0);
        if brightness != 0 {
          p := Rgbw(Scaled(r, brightness), Scaled(g, brightness), Scaled(b, brightness), 0);
        }
        StoredIsBounded(layout, Rgbw(r, g, b, 0), brightness, GetBrightness());
        Store(n, p);
      }
    }

    method SetPixelColor(n: uint16, c: uint32)
      requires Shaped()
      modifies pixels
      ensures Shaped() && (old(Bounded()) ==> Bounded())
      ensures Cells() == if n < numLeds then old(Cells())[n := layout.Bytes(Stored(Unpacked(c), brightness))]
                else old(Cells())
    {
      if n < numLeds {
        var p := Unpacked(c);
        StoredIsBounded(layout, p, brightness, GetBrightness());
        Store(n, if brightness != 0 then Stored(p, brightness) else p);
      }
    }

    method Fill(c: uint32, first: uint16, count: uint16)
      requires Shaped()
      modifies pixels
      ensures Shaped() && (old(Bounded()) ==> Bounded())
      ensures forall n :: 0 <= n < numLeds ==>
                Cells()[n] == if first <= n && (count == 0 || n < (first + count) % 0x1_0000)
                  then layout.Bytes(Stored(Unpacked(c), brightness))
                  else old(Cells())[n]
    {
      if first >= numLeds {
        return;
      }
      var end := FillEnd(first, count, numLeds);
      ghost var cell := layout.Bytes(Stored(Unpacked(c), brightness));
      ghost var before := Cells();
      var i := first;
      while i < end
        invariant Shaped() && (old(Bounded()) ==> Bounded())
        invariant Cells() == Painted(before, first, i, cell)
        invariant first <= i && (first <= end ==> i <= end) && (end < first ==> i == first)
      {
        SetPixelColor(i, c);
        i := i + 1;
      }
      assert Painted(before, first, i, cell) == Painted(before, first, end, cell);
    }

    /** What was last written to a pixel, as far as the brightness left it recoverable. */
    method GetPixelColor(n: uint16) returns (c: uint32)
      requires Shaped()
      ensures n >= numLeds ==> c == 0
      ensures n < numLeds ==> c == ReadColor(layout.Channels(Cells()[n]), brightness)
    {
      hide ReadColor, CellsOf;
      if n >= numLeds {
        return 0;
      }
      var at := Offset(layout.IsRgb(), n);
      ghost var cell := Cells()[n];
      assert forall k :: 0 <= k < layout.BytesPerPixel() ==> pixels[at + k] == cell[k];
      var r, g, b := pixels[at + layout.r], pixels[at + layout.g], pixels[at + layout.b];
      var w := if layout.IsRgb() then 0 else pixels[at + layout.w];
      assert Rgbw(r, g, b, w) == layout.Channels(cell);
      c := ReadColor(Rgbw(r, g, b, w), brightness);
    }

    /** Rescales everything drawn so far to a new brightness. */
    method SetBrightness(b: uint8)
      requires Shaped()
      modifies this`brightness, pixels
      ensures Shaped() && GetBrightness() == b
      ensures forall i :: 0 <= i < pixels.Length ==>
                pixels[i] == if b == old(GetBrightness()) then old(pixels[i])
                    else Rescaled(old(pixels[i]), old(GetBrightness()), b)
      ensures old(Bounded()) ==> Bounded()
    {
      var newBrightness: uint8 := WrapIncrement(b);
      if newBrightness != brightness {
        var oldBrightness := GetBrightness();
        var scale := RescaleFactor(oldBrightness, b);
        for i := 0 to pixels.Length
          invariant forall k :: 0 <= k < i ==> pixels[k] == Rescaled(old(pixels[k]), oldBrightness, b)
          invariant forall k :: i <= k < pixels.Length ==> pixels[k] == old(pixels[k])
          modifies pixels
        {
          pixels[i] := Multiplied(pixels[i], scale);
        }
        brightness := newBrightness;
        RescaledAtMost(old(pixels[..]), pixels[..], oldBrightness, b);
      }
    }

    method Clear()
      requires Shaped()
      modifies pixels
      ensures Shaped() && Bounded()
      ensures pixels[..] == seq(pixels.Length, _ => 0)
    {
      for i := 0 to pixels.Length
        invariant forall k :: 0 <= k < i ==> pixels[k] == 0
      {
        pixels[i] := 0;
      }
    }

    /**
      A new, cleared buffer; without memory the strip ends up with no pixels at all. Its size is
      computed in 16 bits, so that a longer strip has more pixels than its buffer has room for.
    */
    method UpdateLength(n: uint16, memory: bool)
      modifies this
      ensures Bounded() && fresh(pixels)
      ensures layout == old(layout) && brightness == old(brightness)
      ensures numLeds == if memory then n else 0
      ensures pixels.Length == if memory then Offset(layout.IsRgb(), n) % 0x1_0000 else 0
      ensures pixels[..] == seq(pixels.Length, _ => 0)
      ensures Shaped() <==> layout.WellFormed() && (memory ==> Offset(layout.IsRgb(), n) < 0x1_0000)
    {
      if memory {
        var numBytes := Offset(layout.IsRgb(), n) % 0x1_0000;
        pixels := new uint8[numBytes](_ => 0);
        numLeds := n;
      } else {
        pixels := new uint8[0];
        numLeds := 0;
      }
    }

    /** A change between three and four bytes per pixel starts over with a cleared buffer. */
    method UpdateType(pixelType: uint16, memory: bool)
      requires Shaped()
      modifies this
      ensures old(Bounded()) ==> Bounded()
      ensures layout == LayoutOf(pixelType) && brightness == old(brightness)
      ensures layout.IsRgb() == old(layout).IsRgb() ==>
                && pixels == old(pixels) && numLeds == old(numLeds)
                && (Shaped() <==> layout.WellFormed())
      ensures layout.IsRgb() != old(layout).IsRgb() ==>
                && fresh(pixels) && Bounded() && numLeds == (if memory then old(numLeds) else 0)
                && pixels[..] == seq(pixels.Length, _ => 0)
                && (Shaped() <==> layout.WellFormed() && (memory ==> Offset(layout.IsRgb(), numLeds) < 0x1_0000))
    {
      var oldThreeBytesPerPixel := layout.IsRgb();
      layout := LayoutOf(pixelType);
      var newThreeBytesPerPixel := layout.IsRgb();
      if newThreeBytesPerPixel != oldThreeBytesPerPixel {
        UpdateLength(numLeds, memory);
      }
    }

    ghost function Abstract(): Strip
      requires Shaped()
      reads this, pixels
    {
      Strip(Shape(layout, numLeds), brightness, Cells())
    }

    method Perform(op: Operation)
      requires Shaped() && Bounded() && Resized(Shape(layout, numLeds), op).Fits()
      modifies this, pixels
      ensures Shaped() && Bounded() && Shape(layout, numLeds) == Resized(Shape(old(layout), old(numLeds)), op)
      ensures Abstract() == AfterOperation(old(Abstract()), op)
      ensures pixels == old(pixels) || fresh(pixels)
    {
      if op.ChangeLength? || op.ChangeType? {
        Reshape(op);
      } else {
        Redraw(op);
      }
    }

    method Redraw(op: Operation)
      requires Shaped() && Bounded() && !op.ChangeLength? && !op.ChangeType?
      modifies this, pixels
      ensures Shaped() && Bounded() && Shape(layout, numLeds) == Resized(Shape(old(layout), old(numLeds)), op)
      ensures Abstract() == AfterOperation(old(Abstract()), op)
      ensures pixels == old(pixels) || fresh(pixels)
    {
      hide AtMost, CellsOf, Stored, Rescaled, Unlit, Dimmed, Unpacked, Layout.Bytes;
      ghost var bytes, was := pixels[..], brightness;
      match op
      case DrawRgb(n, r, g, b) => SetPixelColorRgb(n, r, g, b);
      case DrawRgbw(n, r, g, b, w) => SetPixelColorRgbw(n, r, g, b, w);
      case Draw(n, c) => SetPixelColor(n, c);
      case FillRange(c, first, count) => Fill(c, first, count);
      case Dim(b) =>
        SetBrightness(b);
        DimmedCells(bytes, pixels[..], layout.IsRgb(), numLeds, was, b);
      case ClearAll =>
        Clear();
        UnlitCells(pixels[..], layout.IsRgb(), numLeds);
    }

    method Reshape(op: Operation)
      requires Shaped() && Bounded() && Resized(Shape(layout, numLeds), op).Fits()
      requires op.ChangeLength? || op.ChangeType?
      modifies this, pixels
      ensures Shaped() && Bounded() && Shape(layout, numLeds) == Resized(Shape(old(layout), old(numLeds)), op)
      ensures Abstract() == AfterOperation(old(Abstract()), op)
      ensures pixels == old(pixels) || fresh(pixels)
    {
      hide AtMost, CellsOf, Unlit;
      ghost var rgb := layout.IsRgb();
      match op
      case ChangeLength(n, memory) =>
        UpdateLength(n, memory);
        UnlitCells(pixels[..], rgb, numLeds);
      case ChangeType(pixelType, memory) =>
        UpdateType(pixelType, memory);
        if rgb != layout.IsRgb() {
          UnlitCells(pixels[..], layout.IsRgb(), numLeds);
        }
    }

    /** Any operations, one after the other, as long as the buffer's size fits its 16 bits. */
    method PerformAll(ops: seq<Operation>)
      requires Shaped() && Bounded() && StaysFit(Shape(layout, numLeds), ops)
      modifies this, pixels
      ensures Shaped() && Bounded() && Abstract() == AfterAll(old(Abstract()), ops)
      ensures forall n :: 0 <= n < numLeds ==> ReadsApart(layout.Channels(Cells()[n]), brightness)
    {
      hide AtMost, CellsOf, ReadsApart, AfterOperation;
      for i := 0 to |ops|
        invariant Shaped() && Bounded() && StaysFit(Shape(layout, numLeds), ops[i..])
        invariant Abstract() == AfterAll(old(Abstract()), ops[..i])
        invariant pixels == old(pixels) || fresh(pixels)
      {
        Perform(ops[i]);
        assert ops[i..][1..] == ops[i + 1..] && ops[..i + 1][..i] == ops[..i];
      }
      assert ops[..|ops|] == ops;
      BoundedCellsReadApart(pixels[..], layout, numLeds, brightness);
    }
  }

  // ---- Whole runs of the driver ----

  datatype Operation =
    | DrawRgb(n: uint16, r: uint8, g: uint8, b: uint8)
    | DrawRgbw(n: uint16, r: uint8, g: uint8, b: uint8, w: uint8)
    | Draw(n: uint16, c: uint32)
    | FillRange(c: uint32, first: uint16, count: uint16)
    | Dim(b: uint8)
    | ClearAll
    | ChangeLength(length: uint16, memory: bool)
    | ChangeType(pixelType: uint16, memory: bool)

  datatype Shape = Shape(layout: Layout, numLeds: uint16) {
    predicate Fits() {
      layout.WellFormed() && Offset(layout.IsRgb(), numLeds) < 0x1_0000
    }
  }

  /** The shape of a strip after an operation. */
  function Resized(s: Shape, op: Operation): Shape {
    match op
    case ChangeLength(n, memory) => s.(numLeds := if memory then n else 0)
    case ChangeType(pixelType, memory) =>
      var layout := LayoutOf(pixelType);
      Shape(layout, if layout.IsRgb() == s.layout.IsRgb() || memory then s.numLeds else 0)
    case _ => s
  }

  /** A strip as a value: its shape, the stored factor and its pixels. */
  datatype Strip = Strip(shape: Shape, brightness: uint8, cells: seq<seq<uint8>>)

  function Unlit(count: nat, size: nat): seq<seq<uint8>> {
    seq(count, _ => seq(size, _ => 0))
  }

  function Dimmed(cells: seq<seq<uint8>>, oldBrightness: uint8, b: uint8): seq<seq<uint8>> {
    seq(|cells|, n requires 0 <= n < |cells| =>
      seq(|cells[n]|, k requires 0 <= k < |cells[n]| => Rescaled(cells[n][k], oldBrightness, b)))
  }

  /** A strip after an operation. */
  function AfterOperation(s: Strip, op: Operation): Strip {
    var after := Resized(s.shape, op);
    var size := Offset(after.layout.IsRgb(), 1);
    match op
    case DrawRgb(n, r, g, b) => WithColor(s, n, Rgbw(r, g, b, 0))
    case DrawRgbw(n, r, g, b, w) => WithColor(s, n, Rgbw(r, g, b, w))
    case Draw(n, c) => WithColor(s, n, Unpacked(c))
    case FillRange(c, first, count) =>
      s.(cells := Painted(s.cells, first, FillEnd(first, count, s.shape.numLeds),
                          s.shape.layout.Bytes(Stored(Unpacked(c), s.brightness))))
    case Dim(b) =>
      var was := WrapDecrement(s.brightness);
      if b == was then s else s.(brightness := WrapIncrement(b), cells := Dimmed(s.cells, was, b))
    case ClearAll => s.(cells := Unlit(s.shape.numLeds, size))
    case ChangeLength(_, _) => s.(shape := after, cells := Unlit(after.numLeds, size))
    case ChangeType(_, _) =>
      if after.layout.IsRgb() == s.shape.layout.IsRgb() then s.(shape := after)
      else s.(shape := after, cells := Unlit(after.numLeds, size))
  }

  function WithColor(s: Strip, n: uint16, p: Rgbw): Strip {
    if n < s.shape.numLeds && n < |s.cells|
    then s.(cells := s.cells[n := s.shape.layout.Bytes(Stored(p, s.brightness))])
    else s
  }

  function AfterAll(s: Strip, ops: seq<Operation>): Strip {
    if ops == [] then s else AfterOperation(AfterAll(s, ops[..|ops| - 1]), ops[|ops| - 1])
  }

  lemma UnlitCells(bytes: seq<uint8>, rgb: bool, count: nat)
    requires Offset(rgb, count) == |bytes| && forall i :: 0 <= i < |bytes| ==> bytes[i] == 0
    ensures CellsOf(bytes, rgb, count) == Unlit(count, Offset(rgb, 1))
  {
    forall n: nat | n < count ensures CellAt(bytes, rgb, n) == Unlit(count, Offset(rgb, 1))[n] {
      assert forall k :: 0 <= k < Offset(rgb, 1) ==> CellAt(bytes, rgb, n)[k] == bytes[Offset(rgb, n) + k];
    }
  }

  lemma DimmedCells(before: seq<uint8>, after: seq<uint8>, rgb: bool, count: nat, brightness: uint8, b: uint8)
    requires Offset(rgb, count) == |before| == |after|
    requires forall i :: 0 <= i < |before| ==>
               after[i] == if b == WrapDecrement(brightness) then before[i]
                           else Rescaled(before[i], WrapDecrement(brightness), b)
    ensures CellsOf(after, rgb, count) ==
            if b == WrapDecrement(brightness) then CellsOf(before, rgb, count)
            else Dimmed(CellsOf(before, rgb, count), WrapDecrement(brightness), b)
  {
    hide Rescaled, WrapDecrement;
    if b == WrapDecrement(brightness) {
      assert after == before;
    } else {
      forall n: nat | n < count
        ensures CellAt(after, rgb, n) == Dimmed(CellsOf(before, rgb, count), WrapDecrement(brightness), b)[n]
      {
        forall k | 0 <= k < Offset(rgb, 1) ensures CellAt(after, rgb, n)[k] ==
            Rescaled(CellAt(before, rgb, n)[k], WrapDecrement(brightness), b)
        {
          assert CellAt(after, rgb, n)[k] == after[Offset(rgb, n) + k];
          assert CellAt(before, rgb, n)[k] == before[Offset(rgb, n) + k];
        }
      }
    }
  }

  predicate StaysFit(s: Shape, ops: seq<Operation>)
    decreases |ops|
  {
    ops != [] ==> Resized(s, ops[0]).Fits() && StaysFit(Resized(s, ops[0]), ops[1..])
  }

  lemma BoundedCellsReadApart(bytes: seq<uint8>, l: Layout, count: nat, br: uint8)
    requires l.WellFormed() && Offset(l.IsRgb(), count) == |bytes| && AtMost(bytes, WrapDecrement(br))
    ensures forall n :: 0 <= n < count ==> ReadsApart(l.Channels(CellsOf(bytes, l.IsRgb(), count)[n]), br)
  {
    hide ReadsApart;
    forall n | 0 <= n < count ensures ReadsApart(l.Channels(CellsOf(bytes, l.IsRgb(), count)[n]), br) {
      var cell := CellAt(bytes, l.IsRgb(), n);
      assert forall k :: 0 <= k < |cell| ==> cell[k] == bytes[Offset(l.IsRgb(), n) + k];
      ReadsApartIff(l.Channels(cell), br);
    }
  }

  /**
    However a strip is drawn on, dimmed, cleared, resized and retyped from its construction on, no stored
    byte exceeds the brightness and every pixel reads back with its channels apart.
  */
  method RunFromStart(pixelType: uint16, ops: seq<Operation>) returns (strip: NeoPixel)
    requires LayoutOf(pixelType).WellFormed() && StaysFit(Shape(LayoutOf(pixelType), 0), ops)
    ensures fresh(strip) && strip.Shaped() && strip.Bounded()
    ensures strip.Abstract() == AfterAll(Strip(Shape(LayoutOf(pixelType), 0), 0, []), ops)
    ensures forall n :: 0 <= n < strip.numLeds ==> ReadsApart(strip.layout.Channels(strip.Cells()[n]), strip.brightness)
  {
    strip := new NeoPixel(pixelType);
    strip.PerformAll(ops);
  }

  /** Every stored channel respects the factor; factor 0 stands for full brightness. */
  predicate Within(p: Rgbw, br: uint8) {
    br == 0 || (p.r < br && p.g < br && p.b < br && p.w < br)
  }

  /** The packed colour unpacks to what each stored channel reads back as. */
  predicate ReadsApart(p: Rgbw, br: uint8) {
    var q := Unpacked(ReadColor(p, br));
    && q.r == ReadBack(p.r, br)
    && q.g == ReadBack(p.g, br)
    && q.b == ReadBack(p.b, br)
    && q.w == ReadBack(p.w, br)
  }

  /** Reading back keeps the channels apart exactly when the stored bytes respect the brightness. */
  lemma ReadsApartIff(p: Rgbw, br: uint8)
    ensures ReadsApart(p, br) <==> Within(p, br)
  {
    hide ReadBack, ReadColor, Packed, Unpacked;
    if Within(p, br) {
      BoundedReadsBack(p, br);
    } else {
      ChannelTooWide(p, br);
    }
  }

  lemma BoundedReadsBack(p: Rgbw, br: uint8)
    requires Within(p, br)
    ensures ReadsApart(p, br)
  {
    hide ReadBack, Packed, Unpacked;
    ReadBackFitsLane(p.r, br);
    ReadBackFitsLane(p.g, br);
    ReadBackFitsLane(p.b, br);
    ReadBackFitsLane(p.w, br);
    LanesDoNotOverlap(ReadBack(p.r, br), ReadBack(p.g, br), ReadBack(p.b, br), ReadBack(p.w, br));
  }

  lemma ChannelTooWide(p: Rgbw, br: uint8)
    requires !Within(p, br)
    ensures !ReadsApart(p, br)
  {
    hide ReadBack, ReadColor, Unpacked;
    if p.r >= br {
      ReadBackLeavesLane(p.r, br);
    } else if p.g >= br {
      ReadBackLeavesLane(p.g, br);
    } else if p.b >= br {
      ReadBackLeavesLane(p.b, br);
    } else {
      ReadBackLeavesLane(p.w, br);
    }
  }

  /** Pure green drawn at factor 200 and read after the factor alone was set to 10: half of it, and some red. */
  lemma DimmedGreenReadsBackMixed()
    ensures var stored := Stored(Rgbw(0, 255, 0, 0), 200);
            stored == Rgbw(0, 199, 0, 0) && Unpacked(ReadColor(stored, 10)) == Rgbw(19, 230, 0, 0)
  {
    assert Scaled(255, 200) == 199 && ReadBack(199, 10) == 5094;
    assert Packed(0, 5094, 0, 0) == 5094 * 0x100 by {
      assert 0 == 0 * 0x1_0000;
    }
    UnpackedSum(19, 230, 0, 0);
  }

  /** Each channel of a pixel reads back no brighter than written and less than 256/br + 1 darker. */
  lemma ReadBackOfWritten(p: Rgbw, br: uint8)
    requires br > 0
    ensures var q := Unpacked(ReadColor(Stored(p, br), br));
            CloseBelow(q.r, p.r, br) && CloseBelow(q.g, p.g, br) && CloseBelow(q.b, p.b, br) && CloseBelow(q.w, p.w, br)
  {
    ReadsApartIff(Stored(p, br), br);
    ReadBackError(p.r, br);
    ReadBackError(p.g, br);
    ReadBackError(p.b, br);
    ReadBackError(p.w, br);
  }

  lemma RescaledAtMost(before: seq<uint8>, after: seq<uint8>, oldBrightness: uint8, b: uint8)
    requires |before| == |after|
    requires forall i :: 0 <= i < |before| ==> after[i] == Rescaled(before[i], oldBrightness, b)
    ensures AtMost(before, oldBrightness) ==> AtMost(after, b)
  {
    if AtMost(before, oldBrightness) {
      forall i | 0 <= i < |before| ensures after[i] <= b {
        RescaleDoesNotWrap(before[i], oldBrightness, b);
      }
    }
  }

  lemma SplicedBytes(before: seq<uint8>, after: seq<uint8>, at: nat, cell: seq<uint8>)
    requires |before| == |after| && at + |cell| <= |before|
    requires forall k :: 0 <= k < |cell| ==> after[at + k] == cell[k]
    requires forall i :: 0 <= i < |before| && !(at <= i < at + |cell|) ==> after[i] == before[i]
    ensures after == before[..at] + cell + before[at + |cell|..]
  {
    assert after[at..at + |cell|] == cell;
    assert after[..at] == before[..at] && after[at + |cell|..] == before[at + |cell|..];
  }
}
