/** Blending two buffers byte by byte; the result may be written over either of them. */
module Blend {
  import opened Words

  /** Division by 256 that rounds towards zero. */
  function Truncated(x: int): int {
    if x >= 0 then x / 256 else -(-x / 256)
  }

  /** A byte on its way from a to b; only the amounts 0 and 255 are exact. */
  function Blended(a: uint8, b: uint8, amount: uint8): uint8 {
    if amount == 0 then a
    else if amount == 255 then b
    else ToUint8(Truncated(amount * (b - a)) + a)
  }

  /** A fraction of a distance, rounded down. */
  lemma FractionIsLess(amount: uint8, distance: nat)
    ensures 0 <= amount * distance / 256 <= distance
    ensures distance > 0 ==> amount * distance / 256 < distance
  {
    ProductMonotone(amount, 255, distance);
  }

  lemma MoreAmountIsFurther(amount: uint8, more: uint8, distance: nat)
    requires amount <= more
    ensures amount * distance / 256 <= more * distance / 256
  {
    ProductMonotone(amount, more, distance);
  }

  lemma TruncatedUp(part: nat, a: uint8, distance: nat)
    requires part / 256 <= distance && a + distance < 0x100
    ensures ToUint8(Truncated(part) + a) == a + part / 256
  {
  }

  lemma TruncatedDown(part: int, a: uint8, distance: nat)
    requires 0 <= part && part / 256 <= distance <= a
    ensures ToUint8(Truncated(-part) + a) == a - part / 256
  {
  }

  lemma NegatedProduct(x: int, y: int)
    ensures x * -y == -(x * y)
  {
  }

  /** How far a blend has come, in either direction. */
  lemma BlendedDistance(a: uint8, b: uint8, amount: uint8)
    requires 0 < amount < 255
    ensures b >= a ==> Blended(a, b, amount) == a + amount * (b - a) / 256
    ensures b <= a ==> Blended(a, b, amount) == a - amount * (a - b) / 256
  {
    hide Truncated, ToUint8;
    var distance := Abs(b - a);
    SameSignProduct(amount, distance);
    FractionIsLess(amount, distance);
    if b >= a {
      TruncatedUp(amount * distance, a, distance);
    }
    if b <= a {
      NegatedProduct(amount, distance);
      TruncatedDown(amount * distance, a, distance);
    }
  }

  /** A blend lies between its inputs, reaches the second only at 255, and comes closer to it with the amount. */
  lemma BlendIsBetween(a: uint8, b: uint8, amount: uint8)
    ensures Min(a, b) <= Blended(a, b, amount) <= a + b - Min(a, b)
    ensures a != b ==> (Blended(a, b, amount) == b <==> amount == 255)
  {
    if 0 < amount < 255 {
      BlendedDistance(a, b, amount);
      FractionIsLess(amount, Abs(b - a));
    }
  }

  lemma BlendIsMonotone(a: uint8, b: uint8, amount: uint8, more: uint8)
    requires amount <= more
    ensures Abs(b - Blended(a, b, more)) <= Abs(b - Blended(a, b, amount))
  {
    BlendIsBetween(a, b, amount);
    BlendIsBetween(a, b, more);
    if 0 < amount && more < 255 {
      BlendedDistance(a, b, amount);
      BlendedDistance(a, b, more);
      MoreAmountIsFurther(amount, more, Abs(b - a));
    }
  }

  // ---- Blending within memory ----

  /** Memory after a copy of a range, which may overlap its target. */
  function Copied(mem: seq<uint8>, dest: nat, src: nat, cnt: nat): (r: seq<uint8>)
    requires dest + cnt <= |mem| && src + cnt <= |mem|
    ensures |r| == |mem|
  {
    mem[..dest] + mem[src..src + cnt] + mem[dest + cnt..]
  }

  /** Memory after k bytes were blended, each from what is in memory by then. */
  function BlendedUpTo(mem: seq<uint8>, dest: nat, src1: nat, src2: nat, k: nat, amount: uint8): (r: seq<uint8>)
    requires dest + k <= |mem| && src1 + k <= |mem| && src2 + k <= |mem|
    ensures |r| == |mem|
  {
    if k == 0 then mem
    else
      var before := BlendedUpTo(mem, dest, src1, src2, k - 1, amount);
      before[dest + k - 1 := Blended(before[src1 + k - 1], before[src2 + k - 1], amount)]
  }

  /** The two amounts at the ends copy, all others blend byte by byte. */
  function AfterBlend(mem: seq<uint8>, dest: nat, src1: nat, src2: nat, cnt: nat, amount: uint8): (r: seq<uint8>)
    requires dest + cnt <= |mem| && src1 + cnt <= |mem| && src2 + cnt <= |mem|
    ensures |r| == |mem|
  {
    if amount == 0 then Copied(mem, dest, src1, cnt)
    else if amount == 255 then Copied(mem, dest, src2, cnt)
    else BlendedUpTo(mem, dest, src1, src2, cnt, amount)
  }

  /** The target does not start inside a source, where it would overwrite bytes still to be read. */
  predicate ReadsAhead(dest: nat, src: nat, cnt: nat) {
    dest <= src || dest >= src + cnt
  }

  lemma {:induction false} BlendedUpToIsOld(mem: seq<uint8>, dest: nat, src1: nat, src2: nat, k: nat, cnt: nat,
      amount: uint8, i: nat)
    requires k <= cnt && dest + cnt <= |mem| && src1 + cnt <= |mem| && src2 + cnt <= |mem| && i < |mem|
    requires ReadsAhead(dest, src1, cnt) && ReadsAhead(dest, src2, cnt)
    ensures BlendedUpTo(mem, dest, src1, src2, k, amount)[i] ==
            if dest <= i < dest + k then Blended(mem[src1 + (i - dest)], mem[src2 + (i - dest)], amount) else mem[i]
  {
    hide Blended;
    if k > 0 {
      BlendedUpToIsOld(mem, dest, src1, src2, k - 1, cnt, amount, i);
      BlendedUpToIsOld(mem, dest, src1, src2, k - 1, cnt, amount, src1 + k - 1);
      BlendedUpToIsOld(mem, dest, src1, src2, k - 1, cnt, amount, src2 + k - 1);
    }
  }

  /** Unless the target starts inside a source every byte is blended from the old inputs; a copy always is. */
  lemma BlendsOldInputs(mem: seq<uint8>, dest: nat, src1: nat, src2: nat, cnt: nat, amount: uint8, i: nat)
    requires dest + cnt <= |mem| && src1 + cnt <= |mem| && src2 + cnt <= |mem| && i < |mem|
    requires 0 < amount < 255 ==>
               (dest <= src1 || dest >= src1 + cnt) && (dest <= src2 || dest >= src2 + cnt)
    ensures AfterBlend(mem, dest, src1, src2, cnt, amount)[i] ==
            if dest <= i < dest + cnt then Blended(mem[src1 + (i - dest)], mem[src2 + (i - dest)], amount) else mem[i]
  {
    hide Truncated, ToUint8, Copied, BlendedUpTo;
    if amount == 0 {
      CopiedAt(mem, dest, src1, cnt, i);
    } else if amount == 255 {
      CopiedAt(mem, dest, src2, cnt, i);
    } else {
      BlendedUpToIsOld(mem, dest, src1, src2, cnt, cnt, amount, i);
    }
  }

  lemma CopiedAt(mem: seq<uint8>, dest: nat, src: nat, cnt: nat, i: nat)
    requires dest + cnt <= |mem| && src + cnt <= |mem| && i < |mem|
    ensures Copied(mem, dest, src, cnt)[i] == if dest <= i < dest + cnt then mem[src + (i - dest)] else mem[i]
  {
  }

  /** With the target one byte into a source the second byte is blended from the first result. */
  lemma BlendCanFeedBack()
    ensures var mem: seq<uint8> := [0, 0, 0, 200, 200];
            AfterBlend(mem, 1, 0, 3, 2, 128)[2] == 150 && Blended(mem[1], mem[4], 128) == 100
  {
    var mem: seq<uint8> := [0, 0, 0, 200, 200];
    var first := BlendedUpTo(mem, 1, 0, 3, 1, 128);
    assert BlendedUpTo(mem, 1, 0, 3, 0, 128) == mem;
    assert first == mem[1 := 100];
    assert BlendedUpTo(mem, 1, 0, 3, 2, 128) == first[2 := Blended(first[1], first[4], 128)];
  }

  method CopyBytes(mem: array<uint8>, dest: nat, src: nat, cnt: nat)
    requires dest + cnt <= mem.Length && src + cnt <= mem.Length
    modifies mem
    ensures mem[..] == Copied(old(mem[..]), dest, src, cnt)
  {
    var copy := mem[src..src + cnt];
    for i := 0 to cnt
      invariant forall k :: dest <= k < dest + i ==> mem[k] == copy[k - dest]
      invariant forall k :: 0 <= k < mem.Length && !(dest <= k < dest + i) ==> mem[k] == old(mem[k])
    {
      mem[dest + i] := copy[i];
    }
    assert mem[dest..dest + cnt] == copy;
    assert mem[..dest] == old(mem[..dest]) && mem[dest + cnt..] == old(mem[dest + cnt..]);
  }

  method BlendBytes(mem: array<uint8>, dest: nat, src1: nat, src2: nat, cnt: uint16, amount: uint8)
    requires dest + cnt <= mem.Length && src1 + cnt <= mem.Length && src2 + cnt <= mem.Length
    modifies mem
    ensures mem[..] == AfterBlend(old(mem[..]), dest, src1, src2, cnt, amount)
  {
    hide Blended;
    if amount == 0 {
      CopyBytes(mem, dest, src1, cnt);
    } else if amount == 255 {
      CopyBytes(mem, dest, src2, cnt);
    } else {
      for i := 0 to cnt
        invariant mem[..] == BlendedUpTo(old(mem[..]), dest, src1, src2, i, amount)
      {
        mem[dest + i] := BlendByte(mem[src1 + i], mem[src2 + i], amount);
      }
    }
  }

  /** The arithmetic of one byte. */
  function BlendByte(a: int, b: int, amount: uint8): (r: uint8)
    requires 0 <= a < 0x100 && 0 <= b < 0x100 && 0 < amount < 255
    ensures r == Blended(a, b, amount)
  {
    ToUint8(Truncated(amount * (b - a)) + a)
  }
}
