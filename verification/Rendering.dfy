/**
  How the effect engine stores a colour and what its fade-out does to a stored pixel, in one frame
  and over many.
*/
module Rendering {
  import opened Words
  import opened Colors
  import opened PixelStrip
  import opened Fade

  /** Everything that decides which bytes a colour becomes; without gamma correction the table is unused. */
  datatype Renderer = Renderer(layout: Layout, brightness: uint8, gamma8: seq<uint8>, corrected: bool) {
    predicate Valid() {
      layout.WellFormed() && |gamma8| == 256
    }

    function Cell(p: Rgbw): (cell: seq<uint8>)
      requires Valid()
      ensures |cell| == layout.BytesPerPixel()
    {
      layout.Bytes(Stored(if corrected then Rgbw(gamma8[p.r], gamma8[p.g], gamma8[p.b], gamma8[p.w])
          else p, brightness))
    }

    /** A stored pixel after one frame of fading towards a colour. */
    function FadedCell(cell: seq<uint8>, target: uint32, rate: nat): (faded: seq<uint8>)
      requires Valid() && |cell| == layout.BytesPerPixel() && rate <= 7
      ensures |faded| == layout.BytesPerPixel()
    {
      Cell(FadedColor(Unpacked(ReadColor(layout.Channels(cell), brightness)), Unpacked(target), rate))
    }
  }

  /** Rate 0 halves every channel whatever the target. */
  function FadedChannel(c: uint8, target: uint8, rate: nat): uint8
    requires rate <= 7
  {
    if rate == 0 then c / 2 else Faded(c, target, rate)
  }

  function FadedColor(p: Rgbw, target: Rgbw, rate: nat): Rgbw
    requires rate <= 7
  {
    Rgbw(FadedChannel(p.r, target.r, rate), FadedChannel(p.g, target.g, rate),
         FadedChannel(p.b, target.b, rate), FadedChannel(p.w, target.w, rate))
  }

  /** A strip that neither scales nor corrects: stored bytes are the colours themselves. */
  predicate Plain(r: Renderer) {
    r.Valid() && r.brightness == 0 && !r.corrected
  }

  /** On a plain strip each channel of a pixel fades by itself; strips without white have none to fade. */
  lemma FadedCellChannels(r: Renderer, cell: seq<uint8>, target: uint32, rate: nat)
    requires Plain(r) && |cell| == r.layout.BytesPerPixel() && rate <= 7
    ensures var p, t := r.layout.Channels(cell), Unpacked(target);
            r.layout.Channels(r.FadedCell(cell, target, rate)) ==
            Rgbw(FadedChannel(p.r, t.r, rate), FadedChannel(p.g, t.g, rate), FadedChannel(p.b, t.b, rate),
                 if r.layout.IsRgb() then 0 else FadedChannel(p.w, t.w, rate))
  {
    var p := r.layout.Channels(cell);
    ReadsApartIff(p, 0);
    ChannelsOfBytes(r.layout, FadedColor(p, Unpacked(target), rate));
  }

  /** The channels a colour is stored as: each corrected by the table if asked for, and times the factor over 256. */
  lemma CellChannels(r: Renderer, p: Rgbw)
    requires r.Valid()
    ensures var q, br := r.layout.Channels(r.Cell(p)), r.brightness;
            && ChannelIs(q.r, if r.corrected then r.gamma8[p.r] else p.r, br)
            && ChannelIs(q.g, if r.corrected then r.gamma8[p.g] else p.g, br)
            && ChannelIs(q.b, if r.corrected then r.gamma8[p.b] else p.b, br)
            && if r.layout.w == r.layout.r then q.w == 0
               else ChannelIs(q.w, if r.corrected then r.gamma8[p.w] else p.w, br)
  {
    var c := if r.corrected then Rgbw(r.gamma8[p.r], r.gamma8[p.g], r.gamma8[p.b], r.gamma8[p.w]) else p;
    ChannelsOfBytes(r.layout, Stored(c, r.brightness));
  }

  predicate ChannelIs(stored: uint8, c: uint8, br: uint8) {
    stored == if br == 0 then c else c * br / 256
  }

  function FadedCellTimes(r: Renderer, cell: seq<uint8>, target: uint32, rate: nat, n: nat): (faded: seq<uint8>)
    requires r.Valid() && |cell| == r.layout.BytesPerPixel() && rate <= 7
    ensures |faded| == r.layout.BytesPerPixel()
    decreases n
  {
    if n == 0 then cell else FadedCellTimes(r, r.FadedCell(cell, target, rate), target, rate, n - 1)
  }

  /** Fading once more at the end. */
  lemma {:induction false} FadeOnceMore(r: Renderer, cell: seq<uint8>, target: uint32, rate: nat, n: nat)
    requires r.Valid() && |cell| == r.layout.BytesPerPixel() && rate <= 7
    ensures FadedCellTimes(r, cell, target, rate, n + 1) ==
            r.FadedCell(FadedCellTimes(r, cell, target, rate, n), target, rate)
    decreases n
  {
    hide Renderer.FadedCell;
    if n > 0 {
      FadeOnceMore(r, r.FadedCell(cell, target, rate), target, rate, n - 1);
    }
  }

  function ChannelAfter(c: uint8, target: uint8, rate: nat, n: nat): uint8
    requires rate <= 7
  {
    if rate == 0 then HalvedTimes(c, n) else FadedTimes(c, target, rate, n)
  }

  /** Any number of frames later every channel is where its own arithmetic takes it. */
  lemma {:induction false} FadeOutChannels(r: Renderer, cell: seq<uint8>, target: uint32, rate: nat, n: nat)
    requires Plain(r) && |cell| == r.layout.BytesPerPixel() && rate <= 7
    ensures var p, t, q := r.layout.Channels(cell), Unpacked(target),
              r.layout.Channels(FadedCellTimes(r, cell, target, rate, n));
            && q.r == ChannelAfter(p.r, t.r, rate, n) && q.g == ChannelAfter(p.g, t.g, rate, n)
                && q.b == ChannelAfter(p.b, t.b, rate, n)
            && q.w == if r.layout.IsRgb() then 0 else ChannelAfter(p.w, t.w, rate, n)
    decreases n
  {
    if n > 0 {
      hide Renderer.FadedCell, Faded;
      FadedCellChannels(r, cell, target, rate);
      FadeOutChannels(r, r.FadedCell(cell, target, rate), target, rate, n - 1);
    }
  }

  /** Where a channel is after 255 frames or more, and after eight at rate 0. */
  ghost predicate Settled(c: uint8, last: uint8, target: uint8, rate: nat)
    requires rate <= 7
  {
    if rate == 0 then last == 0
    else (last == target || Stuck(last, target, rate)) && (c >= target ==> last == target)
  }

  lemma ChannelSettles(c: uint8, target: uint8, rate: nat, n: nat)
    requires rate <= 7 && n >= if rate == 0 then 8 else 255
    ensures Settled(c, ChannelAfter(c, target, rate, n), target, rate)
  {
    if rate == 0 {
      EightHalvingsAreBlack(c, n);
    } else {
      FadeSettles(c, target, rate, n);
    }
  }

  /** On a plain strip a fade always comes to rest: black at rate 0, else at the target or stuck below it. */
  lemma FadeOutSettles(r: Renderer, cell: seq<uint8>, target: uint32, rate: nat, n: nat)
    requires Plain(r) && |cell| == r.layout.BytesPerPixel() && rate <= 7 && n >= if rate == 0 then 8 else 255
    ensures var p, t, q := r.layout.Channels(cell), Unpacked(target),
              r.layout.Channels(FadedCellTimes(r, cell, target, rate, n));
            && Settled(p.r, q.r, t.r, rate) && Settled(p.g, q.g, t.g, rate) && Settled(p.b, q.b, t.b, rate)
            && if r.layout.IsRgb() then q.w == 0 else Settled(p.w, q.w, t.w, rate)
  {
    var p, t := r.layout.Channels(cell), Unpacked(target);
    FadeOutChannels(r, cell, target, rate, n);
    ChannelSettles(p.r, t.r, rate, n);
    ChannelSettles(p.g, t.g, rate, n);
    ChannelSettles(p.b, t.b, rate, n);
    ChannelSettles(p.w, t.w, rate, n);
  }

  predicate Black(cell: seq<uint8>) {
    forall k :: 0 <= k < |cell| ==> cell[k] == 0
  }

  lemma BlackChannels(l: Layout, cell: seq<uint8>)
    requires l.WellFormed() && |cell| == l.BytesPerPixel() && l.Channels(cell) == BLACK
    ensures Black(cell)
  {
    forall k | 0 <= k < |cell| ensures cell[k] == 0 {
      assert k == l.r || k == l.g || k == l.b || k == l.w;
    }
  }

  /** On a plain strip eight frames at rate 0 turn every pixel black. */
  lemma EightFramesAreBlack(r: Renderer, cell: seq<uint8>, target: uint32, n: nat)
    requires Plain(r) && |cell| == r.layout.BytesPerPixel() && n >= 8
    ensures Black(FadedCellTimes(r, cell, target, 0, n))
  {
    FadeOutSettles(r, cell, target, 0, n);
    BlackChannels(r.layout, FadedCellTimes(r, cell, target, 0, n));
  }
}
