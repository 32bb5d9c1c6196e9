/** Which segments the effect engine services, in which slot, and which runtime each one runs on. */
module ActiveSegments {
  import opened Words
  import opened Segments

  const INACTIVE_SEGMENT: uint8 := 255

  predicate IsActive(slots: seq<uint8>, seg: uint8) {
    exists i :: 0 <= i < |slots| && slots[i] == seg
  }

  /** No segment is serviced twice in a frame. */
  ghost predicate NoDuplicates(slots: seq<uint8>) {
    forall i, j :: 0 <= i < j < |slots| && slots[i] != INACTIVE_SEGMENT ==> slots[i] != slots[j]
  }

  /** The first slot that holds a value, or the number of slots. */
  function FirstSlot(slots: seq<uint8>, seg: uint8): (k: nat)
    ensures k <= |slots| && (k < |slots| ==> slots[k] == seg)
    ensures forall i :: 0 <= i < k ==> slots[i] != seg
  {
    if slots == [] then 0 else if slots[0] == seg then 0 else 1 + FirstSlot(slots[1..], seg)
  }

  // ---- The specification ----

  function Added(slots: seq<uint8>, seg: uint8): seq<uint8> {
    var k := FirstSlot(slots, INACTIVE_SEGMENT);
    if IsActive(slots, seg) || k == |slots| then slots else slots[k := seg]
  }

  function Removed(slots: seq<uint8>, seg: uint8): (r: seq<uint8>)
    ensures |r| == |slots|
  {
    seq(|slots|, i requires 0 <= i < |slots| => if slots[i] == seg then INACTIVE_SEGMENT else slots[i])
  }

  function Swapped(slots: seq<uint8>, oldSeg: uint8, newSeg: uint8): seq<uint8> {
    var k := FirstSlot(slots, oldSeg);
    if IsActive(slots, newSeg) || k == |slots| then slots else slots[k := newSeg]
  }

  /** A reset of an active segment numbered past the runtimes writes outside them. */
  predicate StaysInside(slots: seq<uint8>, count: nat, seg: uint8) {
    IsActive(slots, seg) ==> seg < count
  }

  /**
    The runtimes after a reset: the one numbered like the segment, whatever its slot; none if the write
    goes outside.
  */
  function ResetFor(slots: seq<uint8>, runtimes: seq<Runtime>, seg: uint8): seq<Runtime> {
    if IsActive(slots, seg) && seg < |runtimes| then runtimes[seg := RESET] else runtimes
  }

  class ActiveSegments {
    const activeSegments: array<uint8>
    const segmentRuntimes: array<Runtime>

    ghost predicate Valid() {
      activeSegments.Length == segmentRuntimes.Length < 0x100
    }

    constructor (size: uint8)
      ensures Valid() && fresh(activeSegments) && fresh(segmentRuntimes) && activeSegments.Length == size
      ensures activeSegments[..] == seq(size, _ => INACTIVE_SEGMENT) && segmentRuntimes[..] == seq(size, _ => RESET)
      ensures NoDuplicates(activeSegments[..])
    {
      activeSegments := new uint8[size](_ => INACTIVE_SEGMENT);
      segmentRuntimes := new Runtime[size](_ => RESET);
    }

    /** The slot of a segment; the number of slots when it has none. */
    method Find(seg: uint8) returns (k: nat)
      requires Valid()
      ensures k == FirstSlot(activeSegments[..], seg)
      ensures k < activeSegments.Length <==> IsActive(activeSegments[..], seg)
    {
      k := 0;
      while k < activeSegments.Length && activeSegments[k] != seg
        invariant k <= activeSegments.Length && forall i :: 0 <= i < k ==> activeSegments[i] != seg
      {
        k := k + 1;
      }
      if k < activeSegments.Length {
        assert activeSegments[..][k] == seg;
      }
    }

    /** Reports whether what it writes is inside the runtimes; the firmware does not look. */
    method ResetSegmentRuntime(seg: uint8) returns (inside: bool)
      requires Valid()
      modifies segmentRuntimes
      ensures inside == StaysInside(activeSegments[..], segmentRuntimes.Length, seg)
      ensures segmentRuntimes[..] == ResetFor(activeSegments[..], old(segmentRuntimes[..]), seg)
      ensures inside && IsActive(activeSegments[..], seg) ==>
                var rt := segmentRuntimes[seg];
                && rt.nextTime == rt.step == rt.calls == 0 && rt.auxParam == 0 && rt.auxParam3 == 0
                && !rt.frame && !rt.cycle
    {
      var k := Find(seg);
      if k == activeSegments.Length {
        return true;
      }
      if seg >= segmentRuntimes.Length {
        return false;
      }
      segmentRuntimes[seg] := RESET;
      return true;
    }

    method AddActiveSegment(seg: uint8) returns (inside: bool)
      requires Valid()
      modifies activeSegments, segmentRuntimes
      ensures activeSegments[..] == Added(old(activeSegments[..]), seg)
      ensures var added := old(activeSegments[..]) != Added(old(activeSegments[..]), seg);
              && inside == (added ==> seg < segmentRuntimes.Length)
              && segmentRuntimes[..] == if added && inside then old(segmentRuntimes[..])[seg := RESET]
                  else old(segmentRuntimes[..])
      ensures NoDuplicates(old(activeSegments[..])) ==> NoDuplicates(activeSegments[..])
    {
      AddedKeeps(activeSegments[..], seg);
      var at := Find(seg);
      if at < activeSegments.Length {
        return true;
      }
      var k := Find(INACTIVE_SEGMENT);
      if k == activeSegments.Length {
        return true;
      }
      assert activeSegments[..][k] == INACTIVE_SEGMENT;
      activeSegments[k] := seg;
      assert activeSegments[..][k] == seg;
      inside := ResetSegmentRuntime(seg);
    }

    method RemoveActiveSegment(seg: uint8)
      requires Valid()
      modifies activeSegments
      ensures activeSegments[..] == Removed(old(activeSegments[..]), seg)
      ensures NoDuplicates(old(activeSegments[..])) ==> NoDuplicates(activeSegments[..])
    {
      RemovedKeeps(activeSegments[..], seg);
      for i := 0 to activeSegments.Length
        invariant forall j :: 0 <= j < i ==> activeSegments[j] == Removed(old(activeSegments[..]), seg)[j]
        invariant forall j :: i <= j < activeSegments.Length ==> activeSegments[j] == old(activeSegments[j])
      {
        if activeSegments[i] == seg {
          activeSegments[i] := INACTIVE_SEGMENT;
        }
      }
    }

    /** Puts one segment in the slot of another; the runtime of the slot is only reset in a copy. */
    method SwapActiveSegment(oldSeg: uint8, newSeg: uint8)
      requires Valid()
      modifies activeSegments
      ensures activeSegments[..] == Swapped(old(activeSegments[..]), oldSeg, newSeg)
      ensures NoDuplicates(old(activeSegments[..])) ==> NoDuplicates(activeSegments[..])
    {
      SwappedKeeps(activeSegments[..], oldSeg, newSeg);
      var at := Find(newSeg);
      if at < activeSegments.Length {
        return;
      }
      var k := Find(oldSeg);
      if k < activeSegments.Length {
        activeSegments[k] := newSeg;
        var segRt := segmentRuntimes[k];
        segRt := segRt.(step := 0, calls := 0, auxParam := 0, auxParam3 := 0, frame := false, cycle := false);
      }
    }
  }

  // ---- What the operations keep, and what they do to the runtime a segment runs on ----

  lemma AddedKeeps(slots: seq<uint8>, seg: uint8)
    ensures NoDuplicates(slots) ==> NoDuplicates(Added(slots, seg))
    ensures IsActive(Added(slots, seg), seg) <==> IsActive(slots, seg) || IsActive(slots, INACTIVE_SEGMENT)
  {
    var k := FirstSlot(slots, INACTIVE_SEGMENT);
    if k < |slots| && !IsActive(slots, seg) {
      assert slots[k := seg][k] == seg;
    }
  }

  lemma RemovedKeeps(slots: seq<uint8>, seg: uint8)
    ensures NoDuplicates(slots) ==> NoDuplicates(Removed(slots, seg))
    ensures IsActive(Removed(slots, seg), seg) ==> seg == INACTIVE_SEGMENT
  {
  }

  lemma SwappedKeeps(slots: seq<uint8>, oldSeg: uint8, newSeg: uint8)
    ensures NoDuplicates(slots) ==> NoDuplicates(Swapped(slots, oldSeg, newSeg))
  {
  }

  /** Nothing is left of what ran before, except when the next frame is due. */
  predicate IsFresh(rt: Runtime) {
    rt.(nextTime := 0) == RESET
  }

  /** Whether the runtime a segment runs on is fresh. */
  predicate StartsFresh(slots: seq<uint8>, runtimes: seq<Runtime>, seg: uint8)
    requires |slots| == |runtimes|
  {
    var k := FirstSlot(slots, seg);
    k < |slots| && IsFresh(runtimes[k])
  }

  /** A segment that is added starts from a reset exactly when the free slot is its own number or was reset before. */
  lemma AddedStartsFreshIff(slots: seq<uint8>, runtimes: seq<Runtime>, seg: uint8)
    requires |slots| == |runtimes| && seg < |runtimes| && seg != INACTIVE_SEGMENT
    requires !IsActive(slots, seg) && IsActive(slots, INACTIVE_SEGMENT)
    ensures var k := FirstSlot(slots, INACTIVE_SEGMENT);
            k < |slots| &&
            (StartsFresh(Added(slots, seg), runtimes[seg := RESET], seg) <==> k == seg || IsFresh(runtimes[k]))
  {
    var k := FirstSlot(slots, INACTIVE_SEGMENT);
    var after := Added(slots, seg);
    assert after[k] == seg && forall i :: 0 <= i < |slots| && i != k ==> after[i] != seg;
    assert FirstSlot(after, seg) == k;
  }

  /** A segment that is swapped in goes on with whatever its slot was doing. */
  lemma SwappedStartsFreshIff(slots: seq<uint8>, runtimes: seq<Runtime>, oldSeg: uint8, newSeg: uint8)
    requires |slots| == |runtimes| && IsActive(slots, oldSeg) && !IsActive(slots, newSeg)
    ensures var k := FirstSlot(slots, oldSeg);
            k < |slots| && (StartsFresh(Swapped(slots, oldSeg, newSeg), runtimes, newSeg) <==> IsFresh(runtimes[k]))
  {
    var k := FirstSlot(slots, oldSeg);
    var after := Swapped(slots, oldSeg, newSeg);
    assert after[k] == newSeg && forall i :: 0 <= i < |slots| && i != k ==> after[i] != newSeg;
    assert FirstSlot(after, newSeg) == k;
  }

  // ---- When every reset stays inside the runtimes ----

  /** Every active segment has a runtime of its own number. */
  ghost predicate AllNumbered(slots: seq<uint8>, count: nat) {
    forall i :: 0 <= i < |slots| && slots[i] != INACTIVE_SEGMENT ==> slots[i] < count
  }

  /** Resets of segments stay inside exactly when every active segment is numbered below the runtimes. */
  lemma ResetsStayInsideIff(slots: seq<uint8>, count: nat)
    ensures AllNumbered(slots, count) <==>
              forall seg: uint8 :: seg != INACTIVE_SEGMENT ==> StaysInside(slots, count, seg)
  {
    forall i | 0 <= i < |slots| && slots[i] != INACTIVE_SEGMENT
      ensures slots[i] < count <==> StaysInside(slots, count, slots[i])
    {
      assert IsActive(slots, slots[i]);
    }
  }

  /** Adding and removing keep that; a swap keeps it exactly when the new segment does, or nothing is swapped. */
  lemma NumbersKeptIff(slots: seq<uint8>, count: nat, seg: uint8, oldSeg: uint8)
    requires AllNumbered(slots, count)
    ensures seg < count ==> AllNumbered(Added(slots, seg), count)
    ensures AllNumbered(Removed(slots, seg), count)
    ensures AllNumbered(Swapped(slots, oldSeg, seg), count) <==>
            seg < count || seg == INACTIVE_SEGMENT || IsActive(slots, seg) || !IsActive(slots, oldSeg)
  {
    var k := FirstSlot(slots, oldSeg);
    if k < |slots| {
      assert slots[k] == oldSeg && slots[k := seg][k] == seg;
    }
  }

  // ---- Segments that do not start fresh ----

  /** Segment 1 in the first free slot, which a segment with some steps behind it has left: it goes on from there. */
  lemma AddedSegmentGoesOn(steps: uint32)
    requires steps > 0
    ensures var slots, runtimes := [INACTIVE_SEGMENT, INACTIVE_SEGMENT], [RESET.(step := steps), RESET];
            Added(slots, 1) == [1, INACTIVE_SEGMENT] && !StartsFresh(Added(slots, 1), runtimes[1 := RESET], 1)
  {
    var slots, runtimes := [INACTIVE_SEGMENT, INACTIVE_SEGMENT], [RESET.(step := steps), RESET];
    assert slots[0] == INACTIVE_SEGMENT && FirstSlot(slots, INACTIVE_SEGMENT) == 0;
    AddedStartsFreshIff(slots, runtimes, 1);
  }

  /** Segment 1 swapped in for segment 0 goes on with its steps. */
  lemma SwappedSegmentGoesOn(steps: uint32)
    requires steps > 0
    ensures var slots, runtimes := [0, INACTIVE_SEGMENT], [RESET.(step := steps), RESET];
            Swapped(slots, 0, 1) == [1, INACTIVE_SEGMENT] && !StartsFresh(Swapped(slots, 0, 1), runtimes, 1)
  {
    var slots, runtimes := [0, INACTIVE_SEGMENT], [RESET.(step := steps), RESET];
    assert slots[0] == 0 && FirstSlot(slots, 0) == 0;
    SwappedStartsFreshIff(slots, runtimes, 0, 1);
  }

  /** After segment 200 was swapped in, its reset writes outside two runtimes. */
  lemma SwapCanLeaveRuntimes()
    ensures AllNumbered([0, INACTIVE_SEGMENT], 2) && !StaysInside(Swapped([0, INACTIVE_SEGMENT], 0, 200), 2, 200)
  {
    var slots: seq<uint8> := [0, INACTIVE_SEGMENT];
    assert slots[0] == 0 && FirstSlot(slots, 0) == 0;
    assert Swapped(slots, 0, 200)[0] == 200;
  }
}
