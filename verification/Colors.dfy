/** Packed colours, brightness scaling and the byte layout of a pixel. */
module Colors {
  import opened Words

  /** The four channels of a packed 0xWWRRGGBB colour. */
  datatype Rgbw = Rgbw(r: uint8, g: uint8, b: uint8, w: uint8)

  const BLACK := Rgbw(0, 0, 0, 0)

  function Unpacked(c: uint32): Rgbw {
    Rgbw(c / 0x1_0000 % 0x100, c / 0x100 % 0x100, c % 0x100, c / 0x100_0000 % 0x100)
  }

  /** Bitwise or. */
  function BitOr(a: nat, b: nat): nat {
    if a == 0 then b
    else if b == 0 then a
    else 2 * BitOr(a / 2, b / 2) + if a % 2 == 1 || b % 2 == 1 then 1 else 0
  }

  /** A bit is set exactly when it is in one of the two. */
  lemma {:induction false} BitOrBits(a: nat, b: nat, k: nat)
    ensures BitOr(a, b) / PowerOfTwo(k) % 2 == 1 <==> a / PowerOfTwo(k) % 2 == 1 || b / PowerOfTwo(k) % 2 == 1
  {
    hide BitOr;
    if k == 0 {
      BitOrLowest(a, b);
      assert PowerOfTwo(0) == 1 && a / 1 == a && b / 1 == b && BitOr(a, b) / 1 == BitOr(a, b);
    } else {
      BitOrBits(a / 2, b / 2, k - 1);
      BitOrHalves(a, b);
      NextBit(a, k);
      NextBit(b, k);
      NextBit(BitOr(a, b), k);
    }
  }

  lemma NextBit(x: nat, k: nat)
    requires k > 0
    ensures x / PowerOfTwo(k) % 2 == x / 2 / PowerOfTwo(k - 1) % 2
  {
    HalvedFirst(x, PowerOfTwo(k - 1));
  }

  lemma BitOrLowest(a: nat, b: nat)
    ensures BitOr(a, b) % 2 == 1 <==> a % 2 == 1 || b % 2 == 1
  {
    if a > 0 && b > 0 {
      LowestBit(BitOr(a / 2, b / 2), if a % 2 == 1 || b % 2 == 1 then 1 else 0);
    }
  }

  lemma BitOrHalves(a: nat, b: nat)
    ensures BitOr(a, b) / 2 == BitOr(a / 2, b / 2)
  {
    if a > 0 && b > 0 {
      LowestBit(BitOr(a / 2, b / 2), if a % 2 == 1 || b % 2 == 1 then 1 else 0);
    }
  }

  lemma LowestBit(half: nat, bit: nat)
    requires bit < 2
    ensures (2 * half + bit) % 2 == bit && (2 * half + bit) / 2 == half
  {
  }

  lemma HalvedFirst(x: nat, p: nat)
    requires p > 0
    ensures x / (2 * p) == x / 2 / p
  {
    var half, bit := x / 2, x % 2;
    var q, r := half / p, half % p;
    assert half == p * q + r;
    assert 2 * p * q == 2 * (p * q);
    RemainderIsUnique(x, 2 * p, q, 2 * r + bit);
  }

  lemma {:induction false} DisjointBitsAdd(high: nat, low: nat, k: nat)
    requires low < PowerOfTwo(k)
    ensures BitOr(high * PowerOfTwo(k), low) == high * PowerOfTwo(k) + low
  {
    if k > 0 && high > 0 && low > 0 {
      var p := PowerOfTwo(k - 1);
      assert high * PowerOfTwo(k) == 2 * (high * p);
      ProductAtLeast(p, high);
      assert high * p == p * high;
      DisjointBitsAdd(high, low / 2, k - 1);
    }
  }

  /** What getPixelColor builds from channel values, which may be too wide for their lanes. */
  function Packed(r: nat, g: nat, b: nat, w: nat): uint32 {
    ToUint32(BitOr(BitOr(BitOr(ToUint32(w * 0x100_0000), ToUint32(r * 0x1_0000)), ToUint32(g * 0x100)), b))
  }

  lemma Or8(high: nat, low: nat)
    requires low < 0x100
    ensures BitOr(high * 0x100, low) == high * 0x100 + low
  {
    EighthPower();
    DisjointBitsAdd(high, low, 8);
  }

  lemma Or16(high: nat, low: nat)
    requires low < 0x1_0000
    ensures BitOr(high * 0x1_0000, low) == high * 0x1_0000 + low
  {
    SixteenthPower();
    DisjointBitsAdd(high, low, 16);
  }

  lemma Or24(high: nat, low: nat)
    requires low < 0x100_0000
    ensures BitOr(high * 0x100_0000, low) == high * 0x100_0000 + low
  {
    assert PowerOfTwo(24) == 0x100_0000 by {
      SixteenthPower();
      assert PowerOfTwo(20) == 0x10_0000;
    }
    DisjointBitsAdd(high, low, 24);
  }

  lemma UnpackedSum(r: uint8, g: uint8, b: uint8, w: uint8)
    ensures Unpacked(w * 0x100_0000 + r * 0x1_0000 + g * 0x100 + b) == Rgbw(r, g, b, w)
  {
    var c := w * 0x100_0000 + r * 0x1_0000 + g * 0x100 + b;
    RemainderIsUnique(c, 0x100_0000, w, r * 0x1_0000 + g * 0x100 + b);
    RemainderIsUnique(c, 0x1_0000, w * 0x100 + r, g * 0x100 + b);
    RemainderIsUnique(c, 0x100, w * 0x1_0000 + r * 0x100 + g, b);
    RemainderIsUnique(w * 0x100 + r, 0x100, w, r);
    RemainderIsUnique(w * 0x1_0000 + r * 0x100 + g, 0x100, w * 0x100 + r, g);
  }

  lemma PackedSum(r: uint8, g: uint8, b: uint8, w: uint8)
    ensures Packed(r, g, b, w) == w * 0x100_0000 + r * 0x1_0000 + g * 0x100 + b
  {
    var first := BitOr(ToUint32(w * 0x100_0000), ToUint32(r * 0x1_0000));
    assert first == w * 0x100_0000 + r * 0x1_0000 by { Or24(w, r * 0x1_0000); }
    var second := BitOr(first, g * 0x100);
    assert second == first + g * 0x100 by {
      assert first == (w * 0x100 + r) * 0x1_0000;
      Or16(w * 0x100 + r, g * 0x100);
    }
    assert BitOr(second, b) == second + b by {
      assert second == (w * 0x1_0000 + r * 0x100 + g) * 0x100;
      Or8(w * 0x1_0000 + r * 0x100 + g, b);
    }
  }

  /** Channel values that fit their lanes do not overlap, so unpacking gives them back. */
  lemma LanesDoNotOverlap(r: uint8, g: uint8, b: uint8, w: uint8)
    ensures Unpacked(Packed(r, g, b, w)) == Rgbw(r, g, b, w)
  {
    hide Packed, Unpacked;
    PackedSum(r, g, b, w);
    UnpackedSum(r, g, b, w);
  }

  // ---- The colour wheel ----

  /** The channels of a position on the wheel. */
  function WheelChannels(pos: uint8): Rgbw {
    var p := 255 - pos;
    if p < 85 then Rgbw(255 - p * 3, 0, p * 3, 0)
    else if p < 170 then Rgbw(0, (p - 85) * 3, 255 - (p - 85) * 3, 0)
    else Rgbw((p - 170) * 3, 255 - (p - 170) * 3, 0, 0)
  }

  function ColorWheel(pos: uint8): uint32 {
    var c := WheelChannels(pos);
    Packed(c.r, c.g, c.b, 0)
  }

  /** Every position has a colour of the same total intensity, and only the two ends of the wheel share theirs. */
  lemma WheelColors(pos: uint8, other: uint8)
    ensures var c := Unpacked(ColorWheel(pos)); c.r + c.g + c.b == 255 && c.w == 0
    ensures ColorWheel(pos) == ColorWheel(other) <==>
              pos == other || (pos == 0 && other == 255) || (pos == 255 && other == 0)
  {
    var c, d := WheelChannels(pos), WheelChannels(other);
    LanesDoNotOverlap(c.r, c.g, c.b, 0);
    LanesDoNotOverlap(d.r, d.g, d.b, 0);
    assert ColorWheel(pos) == ColorWheel(other) <==> c == d;
  }

  // ---- Brightness ----

  /** x - 1 in a byte. */
  function WrapDecrement(x: uint8): uint8 {
    if x == 0 then 255 else x - 1
  }

  /** x + 1 in a byte. */
  function WrapIncrement(x: uint8): uint8 {
    if x == 255 then 0 else x + 1
  }

  /** A channel as stored under brightness factor br; factor 0 means unscaled. */
  function Scaled(c: uint8, br: uint8): (v: uint8)
    ensures br > 0 ==> v < br
    ensures v <= c
  {
    if br == 0 then c
    else
      ScaledBelow(c, br);
      c * br / 256
  }

  lemma ScaledBelow(c: uint8, br: uint8)
    requires br > 0
    ensures 0 <= c * br / 256 < br && c * br / 256 <= c
  {
    ProductMonotone(c, 255, br);
    ProductMonotone(br, 255, c);
    var product := c * br;
    assert product == br * c && product <= 255 * br && product <= 255 * c;
  }

  /** What reading a stored channel back gives. */
  function ReadBack(v: uint8, br: uint8): nat {
    if br == 0 then v else v * 256 / br
  }

  lemma QuotientBounds(x: nat, d: nat)
    requires d > 0
    ensures d * (x / d) <= x < d * (x / d) + d
  {
    assert x == d * (x / d) + x % d;
  }

  lemma QuotientAtMost(x: nat, d: nat, m: nat)
    requires d > 0 && x <= d * m
    ensures x / d <= m
  {
    QuotientBelow(x, d, m + 1);
  }

  lemma QuotientBelow(x: nat, d: nat, m: nat)
    requires d > 0 && x < d * m
    ensures x / d < m
  {
    QuotientBounds(x, d);
    var q := x / d;
    assert d * (q - m) == d * q - d * m < 0;
    SameSignProduct(d, q - m);
  }

  /** No brighter than c, and less than 256/br + 1 darker. */
  ghost predicate CloseBelow(r: int, c: int, br: int) {
    r <= c && br * (c - r) < 256 + br
  }

  /** Reading back a channel never brightens it, and darkens it by less than 256/br + 1. */
  lemma ReadBackError(c: uint8, br: uint8)
    requires br > 0
    ensures CloseBelow(ReadBack(Scaled(c, br), br), c, br)
  {
    var v := Scaled(c, br);
    var r := ReadBack(v, br);
    var product := c * br;
    assert v == product / 256;
    QuotientBounds(v * 256, br);
    assert br * r <= v * 256 <= product;
    assert br * (c - r) == product - br * r;
    assert product == br * c;
    QuotientAtMost(v * 256, br, c);
  }

  /** A stored byte below the factor reads back within one lane. */
  lemma ReadBackFitsLane(v: uint8, br: uint8)
    requires br == 0 || v < br
    ensures ReadBack(v, br) < 256
  {
    if br > 0 {
      assert v * 256 < br * 256;
      QuotientBelow(v * 256, br, 256);
    }
  }

  /** And one that is not below it does not. */
  lemma ReadBackLeavesLane(v: uint8, br: uint8)
    requires 0 < br <= v
    ensures ReadBack(v, br) >= 256
  {
    assert v * 256 == br * 256 + (v - br) * 256;
    if ReadBack(v, br) < 256 {
      QuotientBounds(v * 256, br);
      ProductMonotone(ReadBack(v, br) + 1, 256, br);
    }
  }

  /** The factor setBrightness multiplies existing bytes by, in 1/256 units. */
  function RescaleFactor(oldBrightness: uint8, b: uint8): nat {
    if oldBrightness == 0 then 0
    else if b == 255 then 65535 / oldBrightness
    else (b * 256 + 255) / oldBrightness
  }

  /** A byte times a factor in 1/256 units, cut down to a byte. */
  function Multiplied(c: uint8, factor: nat): uint8 {
    c * factor / 256 % 256
  }

  /** One byte after setBrightness went from oldBrightness to b. */
  function Rescaled(c: uint8, oldBrightness: uint8, b: uint8): uint8 {
    Multiplied(c, RescaleFactor(oldBrightness, b))
  }

  /** Rescaling keeps the proportion: the result is the byte's share of the new brightness, or one more. */
  lemma RescaleKeepsProportion(c: uint8, oldBrightness: uint8, b: uint8)
    requires c <= oldBrightness && oldBrightness > 0
    ensures c * b / oldBrightness <= Rescaled(c, oldBrightness, b) <= c * b / oldBrightness + 1
  {
    hide Rescaled, RescaleFactor;
    RescaleDoesNotWrap(c, oldBrightness, b);
    FactorBounds(oldBrightness, b);
    ShareBounds(c * b, oldBrightness, c * b / oldBrightness);
    ShareBelow(c, oldBrightness, b, RescaleFactor(oldBrightness, b), c * b / oldBrightness);
    ShareAbove(c, oldBrightness, b, RescaleFactor(oldBrightness, b), c * b / oldBrightness);
  }

  lemma ShareBounds(product: nat, was: nat, share: nat)
    requires was > 0 && share == product / was
    ensures was * share <= product < was * share + was
  {
    QuotientBounds(product, was);
  }

  lemma FactorBounds(oldBrightness: uint8, b: uint8)
    requires oldBrightness > 0
    ensures var bound, reached := b * 256 + 255, oldBrightness * RescaleFactor(oldBrightness, b);
            reached <= bound < reached + oldBrightness
  {
    QuotientBounds(b * 256 + 255, oldBrightness);
  }

  lemma ShareBelow(c: nat, was: nat, b: nat, factor: nat, share: nat)
    requires c <= was && 0 < was <= 255
    requires b * 256 + 255 < was * factor + was && was * share <= c * b
    ensures share <= c * factor / 256
  {
    ProductMonotone(b * 256, was * factor, c);
    Reordered(c, was, b, factor, share);
    SmallerFactor(was, 256 * share, c * factor);
  }

  lemma ShareAbove(c: nat, was: nat, b: nat, factor: nat, share: nat)
    requires c <= was && 0 < was
    requires was * factor <= b * 256 + 255 && c * b < was * share + was
    ensures c * factor / 256 <= share + 1
  {
    ProductMonotone(was * factor, b * 256 + 255, c);
    Reordered(c, was, b, factor, share);
    SmallerFactor(was, c * factor + 1, 256 * (share + 2));
  }

  lemma Reordered(c: nat, was: nat, b: nat, factor: nat, share: nat)
    ensures was * factor * c == was * (c * factor) == was * (c * factor + 1) - was
    ensures b * 256 * c == 256 * (c * b) && (b * 256 + 255) * c == 256 * (c * b) + 255 * c
    ensures was * (256 * share) == 256 * (was * share)
    ensures was * (256 * (share + 2)) == 256 * (was * share) + 512 * was
  {
  }

  lemma SmallerFactor(d: nat, x: int, y: int)
    requires d > 0 && d * x <= d * y
    ensures x <= y
  {
    assert d * (x - y) == d * x - d * y;
    if x > y {
      ProductAtLeast(d, x - y);
    }
  }

  /** And a strip that was black stays black. */
  lemma RescaleFromBlack(c: uint8, b: uint8)
    ensures Rescaled(c, 0, b) == 0
  {
  }

  /** Rescaling a byte that respects the old brightness never wraps and respects the new one. */
  lemma RescaleDoesNotWrap(c: uint8, oldBrightness: uint8, b: uint8)
    requires c <= oldBrightness
    ensures c * RescaleFactor(oldBrightness, b) / 256 <= b
    ensures Rescaled(c, oldBrightness, b) == c * RescaleFactor(oldBrightness, b) / 256
  {
    var factor := RescaleFactor(oldBrightness, b);
    if oldBrightness > 0 {
      var bound := b * 256 + 255;
      QuotientBounds(bound, oldBrightness);
      assert factor == bound / oldBrightness;
      ProductMonotone(c, oldBrightness, factor);
    }
  }
}
