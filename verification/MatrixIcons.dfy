/**
  The custom icon cache (three 64-pixel bitmaps behind a lock whose acquisition can time
  out), its snapshot and restore loops, and the JSON form of a snapshot.
*/
module MatrixIcons {
  import opened Words
  import opened Options

  const ICON_COUNT := 3
  const ICON_PIXELS := 64
  const RGB_MASK := 0xFF_FFFF

  type Bitmap = s: seq<uint32> | |s| == ICON_PIXELS witness seq(ICON_PIXELS, _ => 0)

  /** A snapshot of the cache: the bitmaps that are present. */
  type Icons = s: seq<Option<Bitmap>> | |s| == ICON_COUNT witness [None, None, None]

  /** Which of the lock acquisitions of a loop over the icons succeed. */
  type Locks = s: seq<bool> | |s| == ICON_COUNT witness [true, true, true]

  /** color & 0x00FFFFFF */
  function NormalizeColor(color: uint32): uint32 {
    color % (RGB_MASK + 1)
  }

  function MaskedBitmap(b: Bitmap): Bitmap {
    seq(ICON_PIXELS, p requires 0 <= p < ICON_PIXELS => NormalizeColor(b[p]))
  }

  function MaskedIcon(icon: Option<Bitmap>): Option<Bitmap> {
    match icon
    case None => None
    case Some(b) => Some(MaskedBitmap(b))
  }

  function Masked(icons: Icons): Icons {
    [MaskedIcon(icons[0]), MaskedIcon(icons[1]), MaskedIcon(icons[2])]
  }

  lemma MaskedTwice(icons: Icons)
    ensures Masked(Masked(icons)) == Masked(icons)
  {
    forall b: Bitmap ensures MaskedBitmap(MaskedBitmap(b)) == MaskedBitmap(b) {
    }
  }

  lemma MaskedUpdate(icons: Icons, index: nat, icon: Option<Bitmap>)
    requires Masked(icons) == icons && index < ICON_COUNT
    ensures Masked(icons[index := MaskedIcon(icon)]) == icons[index := MaskedIcon(icon)]
  {
    forall b: Bitmap ensures MaskedBitmap(MaskedBitmap(b)) == MaskedBitmap(b) {
    }
  }

  // ---- What the two loops do to a snapshot and to the cache ----

  /** A capture loses, without noticing, every icon whose presence check times out. */
  function Captured(cache: Icons, hasLocks: Locks): Icons {
    seq(ICON_COUNT, i requires 0 <= i < ICON_COUNT => if hasLocks[i] then cache[i] else None)
  }

  /** A capture fails when the copy of an icon known to be present times out. */
  predicate CaptureSucceeds(cache: Icons, hasLocks: Locks, copyLocks: Locks) {
    forall i :: 0 <= i < ICON_COUNT && hasLocks[i] && cache[i].Some? ==> copyLocks[i]
  }

  /** How many icons a restore writes before its lock times out. */
  function WrittenBeforeTimeout(locks: Locks): (k: nat)
    ensures k <= ICON_COUNT
    ensures forall i :: 0 <= i < k ==> locks[i]
    ensures k < ICON_COUNT ==> !locks[k]
  {
    if !locks[0] then 0 else if !locks[1] then 1 else if !locks[2] then 2 else 3
  }

  /** A torn restore: a prefix of the icons is new, the rest is old. */
  function Restored(cache: Icons, snapshot: Icons, locks: Locks): Icons {
    var k := WrittenBeforeTimeout(locks);
    Masked(snapshot)[..k] + cache[k..]
  }

  predicate RestoreSucceeds(locks: Locks) {
    WrittenBeforeTimeout(locks) == ICON_COUNT
  }

  /**
    Restoring what a capture saw leaves the cache alone, however far the restore gets, except
    for the icons the capture missed: it holds exactly when every rewritten icon had been seen.
  */
  lemma RestoreAfterCapture(cache: Icons, hasLocks: Locks, locks: Locks)
    requires Masked(cache) == cache
    ensures Restored(cache, Captured(cache, hasLocks), locks) == cache
        <==> forall i :: 0 <= i < WrittenBeforeTimeout(locks) && cache[i].Some? ==> hasLocks[i]
  {
    var k := WrittenBeforeTimeout(locks);
    var restored := Restored(cache, Captured(cache, hasLocks), locks);
    forall i | 0 <= i < ICON_COUNT
      ensures restored[i] == if i < k && !hasLocks[i] then None else cache[i]
    {
    }
  }

  class IconStore {
    const has: array<bool>
    /** The three bitmaps, one after the other. */
    const pixels: array<uint32>

    ghost predicate Shaped() {
      has.Length == ICON_COUNT && pixels.Length == ICON_COUNT * ICON_PIXELS
    }

    /** Every colour in the cache has been normalised. */
    ghost predicate Valid()
      reads has, pixels
    {
      Shaped() && Masked(Contents()) == Contents()
    }

    ghost function BitmapAt(i: nat): Bitmap
      requires Shaped() && i < ICON_COUNT
      reads pixels
    {
      pixels[i * ICON_PIXELS..(i + 1) * ICON_PIXELS]
    }

    ghost function Icon(i: nat): Option<Bitmap>
      requires Shaped() && i < ICON_COUNT
      reads has, pixels
    {
      if has[i] then Some(BitmapAt(i)) else None
    }

    ghost function Contents(): Icons
      requires Shaped()
      reads has, pixels
    {
      [Icon(0), Icon(1), Icon(2)]
    }

    constructor ()
      ensures Valid() && fresh(has) && fresh(pixels)
      ensures Contents() == [None, None, None]
    {
      has := new bool[ICON_COUNT](_ => false);
      pixels := new uint32[ICON_COUNT * ICON_PIXELS](_ => 0);
    }

    method HasCustomIcon(index: nat, locked: bool) returns (present: bool)
      requires Valid()
      ensures present <==> index < ICON_COUNT && locked && Icon(index).Some?
    {
      if index >= ICON_COUNT {
        return false;
      }
      present := false;
      if locked {
        present := has[index];
      }
    }

    method CopyCustomIcon(index: nat, pixelCount: nat, locked: bool) returns (ok: bool, copy: seq<uint32>)
      requires Valid()
      ensures ok <==> index < ICON_COUNT && pixelCount == ICON_PIXELS && locked && Icon(index).Some?
      ensures ok ==> Some(copy) == Icon(index)
    {
      copy := [];
      if index >= ICON_COUNT || pixelCount != ICON_PIXELS || !locked {
        return false, copy;
      }
      ok := has[index];
      if ok {
        copy := pixels[index * ICON_PIXELS..(index + 1) * ICON_PIXELS];
      }
    }

    /** Stores the bitmap with its colours normalised, or clears the icon when there is none. */
    method SetCustomIcon(index: nat, bitmap: Option<seq<uint32>>, pixelCount: nat, locked: bool) returns (ok: bool)
      requires Valid()
      requires bitmap.Some? ==> |bitmap.value| == pixelCount
      modifies has, pixels
      ensures Valid()
      ensures ok <==> index < ICON_COUNT && pixelCount == ICON_PIXELS && locked
      ensures !ok ==> Contents() == old(Contents())
      ensures ok ==> Contents() == old(Contents())[index := MaskedIcon(bitmap)]
    {
      if index >= ICON_COUNT || pixelCount != ICON_PIXELS || !locked {
        return false;
      }
      ghost var before := Contents();
      match bitmap {
        case Some(b) =>
          for p := 0 to ICON_PIXELS
            invariant forall q :: 0 <= q < p ==> pixels[index * ICON_PIXELS + q] == NormalizeColor(b[q])
            invariant OtherPixelsKept(index)
            modifies pixels
          {
            pixels[index * ICON_PIXELS + p] := NormalizeColor(b[p]);
          }
          assert BitmapAt(index) == MaskedBitmap(b);
          has[index] := true;
        case None =>
          for p := 0 to ICON_PIXELS
            invariant OtherPixelsKept(index)
            modifies pixels
          {
            pixels[index * ICON_PIXELS + p] := 0;
          }
          has[index] := false;
      }
      assert Icon(index) == MaskedIcon(bitmap);
      OtherIconsKept(index);
      MaskedUpdate(before, index, bitmap);
      assert Contents() == before[index := MaskedIcon(bitmap)];
      return true;
    }

    /** No pixel outside the icon's own bitmap has changed. */
    twostate predicate OtherPixelsKept(index: nat)
      requires Shaped() && index < ICON_COUNT
      reads pixels
    {
      forall q :: 0 <= q < ICON_COUNT * ICON_PIXELS && !(index * ICON_PIXELS <= q < (index + 1) * ICON_PIXELS)
        ==> pixels[q] == old(pixels[q])
    }

    twostate lemma OtherIconsKept(index: nat)
      requires Shaped() && index < ICON_COUNT && OtherPixelsKept(index)
      requires forall i :: 0 <= i < ICON_COUNT && i != index ==> has[i] == old(has[i])
      ensures forall i: nat :: i < ICON_COUNT && i != index ==> Icon(i) == old(Icon(i))
    {
      forall i: nat | i < ICON_COUNT && i != index ensures BitmapAt(i) == old(BitmapAt(i)) {
      }
    }

    method Capture(hasLocks: Locks, copyLocks: Locks) returns (ok: bool, snapshot: Icons)
      requires Valid()
      ensures ok <==> CaptureSucceeds(Contents(), hasLocks, copyLocks)
      ensures ok ==> snapshot == Captured(Contents(), hasLocks)
    {
      snapshot := [None, None, None];
      for i := 0 to ICON_COUNT
        invariant forall j :: 0 <= j < i ==> snapshot[j] == Captured(Contents(), hasLocks)[j]
        invariant forall j :: i <= j < ICON_COUNT ==> snapshot[j] == None
        invariant forall j :: 0 <= j < i && hasLocks[j] && Contents()[j].Some? ==> copyLocks[j]
      {
        assert Contents()[i] == Icon(i);
        var present := HasCustomIcon(i, hasLocks[i]);
        if present {
          var copied, bitmap := CopyCustomIcon(i, ICON_PIXELS, copyLocks[i]);
          if !copied {
            return false, snapshot;
          }
          var image: Bitmap := bitmap;
          snapshot := snapshot[i := Some(image)];
        }
      }
      return true, snapshot;
    }

    method Restore(snapshot: Icons, locks: Locks) returns (ok: bool)
      requires Valid()
      modifies has, pixels
      ensures Valid()
      ensures ok <==> RestoreSucceeds(locks)
      ensures Contents() == Restored(old(Contents()), snapshot, locks)
    {
      ghost var k := WrittenBeforeTimeout(locks);
      for i := 0 to ICON_COUNT
        invariant Valid() && i <= k
        invariant Contents() == Masked(snapshot)[..i] + old(Contents())[i..]
      {
        ok := SetCustomIcon(i, snapshot[i], ICON_PIXELS, locks[i]);
        if !ok {
          return false;
        }
        PrefixGrows(Masked(snapshot), old(Contents()), i);
      }
      return true;
    }
  }

  lemma PrefixGrows<T>(a: seq<T>, b: seq<T>, i: nat)
    requires i < |a| == |b|
    ensures (a[..i] + b[i..])[i := a[i]] == a[..i + 1] + b[i + 1..]
  {
  }

  // ---- JSON ----

  datatype Json =
    | Null
    | Number(n: int)
    | Text(s: string)
    | Array(items: seq<Json>)
    | Object(fields: map<string, Json>)

  const CUSTOM_ICONS := "custom_icons"

  /** Reading a value as an unsigned 32-bit number gives 0 for anything else. */
  function AsUint32(j: Json): uint32 {
    if j.Number? && 0 <= j.n < 0x1_0000_0000 then j.n else 0
  }

  function IconJson(icon: Option<Bitmap>): Json {
    match icon
    case None => Array([])
    case Some(b) => Array(seq(ICON_PIXELS, p requires 0 <= p < ICON_PIXELS => Number(b[p])))
  }

  function IconsJson(icons: Icons): Json {
    Array([IconJson(icons[0]), IconJson(icons[1]), IconJson(icons[2])])
  }

  /** What an icon's JSON value makes of the icon: empty clears it, 64 values replace it, anything else leaves it. */
  function ReadIcon(j: Json, prior: Option<Bitmap>): Option<Bitmap> {
    if !j.Array? then prior
    else if |j.items| == 0 then None
    else if |j.items| != ICON_PIXELS then prior
    else Some(seq(ICON_PIXELS, p requires 0 <= p < ICON_PIXELS => NormalizeColor(AsUint32(j.items[p]))))
  }

  function ReadIcons(root: map<string, Json>, prior: Icons): Icons {
    if CUSTOM_ICONS !in root || !root[CUSTOM_ICONS].Array? then prior
    else
      var items := root[CUSTOM_ICONS].items;
      seq(ICON_COUNT, i requires 0 <= i < ICON_COUNT => if i < |items| then ReadIcon(items[i], prior[i]) else prior[i])
  }

  /** A pixel is the low three bytes of its number, and black for anything that is not a 32-bit number. */
  predicate PixelIs(pixel: uint32, j: Json) {
    if j.Number? && 0 <= j.n < 0x1_0000_0000 then
      pixel < 0x100_0000 && exists w: uint8 :: j.n == w * 0x100_0000 + pixel
    else pixel == 0
  }

  lemma LowBytes(color: uint32)
    ensures NormalizeColor(color) < 0x100_0000
    ensures exists w: uint8 :: color == w * 0x100_0000 + NormalizeColor(color)
  {
    var w: uint8 := color / 0x100_0000;
    assert color == w * 0x100_0000 + color % 0x100_0000;
  }

  /** What a document makes of an icon: 64 values replace it pixel by pixel, none clears it, anything else keeps it. */
  lemma IconRead(root: map<string, Json>, prior: Icons, i: nat)
    requires i < ICON_COUNT
    ensures var after := ReadIcons(root, prior)[i];
            if "custom_icons" in root && root["custom_icons"].Array? && i < |root["custom_icons"].items|
               && root["custom_icons"].items[i].Array? && |root["custom_icons"].items[i].items| in {0, 64}
            then
              var pixels := root["custom_icons"].items[i].items;
              if pixels == [] then after == None
              else after.Some? && forall p :: 0 <= p < 64 ==> PixelIs(after.value[p], pixels[p])
            else after == prior[i]
  {
    forall color: uint32 ensures NormalizeColor(color) < 0x100_0000
      && exists w: uint8 :: color == w * 0x100_0000 + NormalizeColor(color)
    {
      LowBytes(color);
    }
    LowBytes(0);
    hide NormalizeColor;
  }

  method Equal(lhs: Icons, rhs: Icons) returns (same: bool)
    ensures same <==> lhs == rhs
  {
    for i := 0 to ICON_COUNT
      invariant forall j :: 0 <= j < i ==> lhs[j] == rhs[j]
    {
      if lhs[i].Some? != rhs[i].Some? {
        return false;
      }
      if lhs[i].None? {
        continue;
      }
      if lhs[i].value != rhs[i].value {
        return false;
      }
    }
    return true;
  }

  method Serialize(icons: Icons, root: map<string, Json>) returns (written: map<string, Json>)
    ensures written == root[CUSTOM_ICONS := IconsJson(icons)]
  {
    var entries: seq<Json> := [];
    for i := 0 to ICON_COUNT
      invariant |entries| == i
      invariant forall j :: 0 <= j < i ==> entries[j] == IconJson(icons[j])
    {
      var icon: seq<Json> := [];
      if icons[i].Some? {
        for p := 0 to ICON_PIXELS
          invariant |icon| == p
          invariant forall q :: 0 <= q < p ==> icon[q] == Number(icons[i].value[q])
        {
          icon := icon + [Number(icons[i].value[p])];
        }
      }
      assert Array(icon) == IconJson(icons[i]);
      entries := entries + [Array(icon)];
    }
    assert Array(entries) == IconsJson(icons);
    written := root[CUSTOM_ICONS := Array(entries)];
  }

  method Deserialize(root: map<string, Json>, prior: Icons) returns (icons: Icons)
    ensures icons == ReadIcons(root, prior)
  {
    icons := prior;
    if CUSTOM_ICONS !in root || !root[CUSTOM_ICONS].Array? {
      return;
    }
    var items := root[CUSTOM_ICONS].items;
    var i := 0;
    while i < |items| && i < ICON_COUNT
      invariant i <= |items| && i <= ICON_COUNT
      invariant forall j :: 0 <= j < i ==> icons[j] == ReadIcon(items[j], prior[j])
      invariant forall j :: i <= j < ICON_COUNT ==> icons[j] == prior[j]
    {
      if items[i].Array? {
        var data := items[i].items;
        if |data| == 0 {
          icons := icons[i := None];
        } else if |data| == ICON_PIXELS {
          var bitmap: seq<uint32> := [];
          for p := 0 to ICON_PIXELS
            invariant |bitmap| == p
            invariant forall q :: 0 <= q < p ==> bitmap[q] == NormalizeColor(AsUint32(data[q]))
          {
            bitmap := bitmap + [NormalizeColor(AsUint32(data[p]))];
          }
          var image: Bitmap := bitmap;
          assert ReadIcon(items[i], prior[i]).value == image;
          icons := icons[i := Some(image)];
        }
      }
      i := i + 1;
    }
  }

  /** Reading back what was written replaces any prior state by the icons with 24-bit colours. */
  lemma CodecRoundTrip(icons: Icons, root: map<string, Json>, prior: Icons)
    ensures ReadIcons(root[CUSTOM_ICONS := IconsJson(icons)], prior) == Masked(icons)
  {
    forall icon: Option<Bitmap>, other: Option<Bitmap> ensures ReadIcon(IconJson(icon), other) == MaskedIcon(icon) {
      if icon.Some? {
        assert ReadIcon(IconJson(icon), other).value == MaskedIcon(icon).value;
      }
    }
  }

  /** An icon changes only if the document has an array of the right size, or an empty one, in its place. */
  lemma WrongSizeKeepsIcon(root: map<string, Json>, prior: Icons, i: nat)
    requires i < ICON_COUNT
    ensures ReadIcons(root, prior)[i] != prior[i]
        ==> CUSTOM_ICONS in root && root[CUSTOM_ICONS].Array? && i < |root[CUSTOM_ICONS].items|
            && root[CUSTOM_ICONS].items[i].Array? && |root[CUSTOM_ICONS].items[i].items| in {0, ICON_PIXELS}
  {
  }
}
