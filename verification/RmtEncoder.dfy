/**
  Turning pixel bytes into timed pulses: the show routine with its reused pulse buffer and its
  lock, and the adapter that translates a frame chunk by chunk.
*/
module RmtEncoder {
  import opened Words
  import opened Options

  /** A high level for some ticks, then a low one. */
  datatype Pulse = Pulse(high: nat, low: nat)

  const ONE := Pulse(8, 4)
  const ZERO := Pulse(4, 8)

  function PulseOf(bit: bool): Pulse {
    if bit then ONE else ZERO
  }

  /** Bit k of a byte, counted from the most significant one. */
  predicate BitOf(x: uint8, k: nat)
    requires k < 8
  {
    x / PowerOfTwo(7 - k) % 2 == 1
  }

  function EncodeByte(x: uint8): (pulses: seq<Pulse>)
    ensures |pulses| == 8
  {
    seq(8, k requires 0 <= k < 8 => PulseOf(BitOf(x, k)))
  }

  /** The pulses of a frame: each byte most significant bit first. */
  function Encode(bytes: seq<uint8>): (pulses: seq<Pulse>)
    ensures |pulses| == 8 * |bytes|
  {
    if bytes == [] then [] else Encode(bytes[..|bytes| - 1]) + EncodeByte(bytes[|bytes| - 1])
  }

  // ---- Timing ----

  /** The ticks a sequence of pulses takes, and those it is high for. */
  function Ticks(pulses: seq<Pulse>): nat {
    if pulses == [] then 0 else Ticks(pulses[..|pulses| - 1]) + pulses[|pulses| - 1].high + pulses[|pulses| - 1].low
  }

  function HighTicks(pulses: seq<Pulse>): nat {
    if pulses == [] then 0 else HighTicks(pulses[..|pulses| - 1]) + pulses[|pulses| - 1].high
  }

  /** How many pulses of a sequence a receiver takes for ones. */
  function Ones(pulses: seq<Pulse>): nat {
    if pulses == [] then 0 else Ones(pulses[..|pulses| - 1]) + Received(pulses[|pulses| - 1])
  }

  /**
    At ten ticks a microsecond every bit takes 1.2 microseconds, of which it is high for 0.4, or 0.8 if it is
    a one: a frame of n bytes takes 96 * n ticks.
  */
  lemma FrameTiming(bytes: seq<uint8>)
    ensures PulsesTimed(Encode(bytes))
    ensures Ticks(Encode(bytes)) == 96 * |bytes|
    ensures HighTicks(Encode(bytes)) == 32 * |bytes| + 4 * Ones(Encode(bytes))
  {
    EncodedAreTimed(bytes);
    TimedTicks(Encode(bytes));
  }

  predicate IsTimed(p: Pulse) {
    p == (if Received(p) == 1 then Pulse(8, 4) else Pulse(4, 8))
  }

  ghost predicate PulsesTimed(pulses: seq<Pulse>) {
    forall i :: 0 <= i < |pulses| ==> IsTimed(pulses[i])
  }

  lemma {:induction false} EncodedAreTimed(bytes: seq<uint8>)
    ensures PulsesTimed(Encode(bytes))
  {
    if bytes != [] {
      EncodedAreTimed(bytes[..|bytes| - 1]);
    }
  }

  lemma {:induction false} TimedTicks(pulses: seq<Pulse>)
    requires PulsesTimed(pulses)
    ensures Ticks(pulses) == 12 * |pulses| && HighTicks(pulses) == 4 * |pulses| + 4 * Ones(pulses)
  {
    if pulses != [] {
      var n := |pulses| - 1;
      assert IsTimed(pulses[n]);
      TimedTicks(pulses[..n]);
    }
  }

  // ---- What a receiver makes of the pulses ----

  /** A pulse that is high for longer than low is a one. */
  function Received(p: Pulse): nat {
    if p.high > p.low then 1 else 0
  }

  /** The number whose bits, most significant first, are the first k pulses. */
  function ReceivedNumber(pulses: seq<Pulse>, k: nat): nat
    requires k <= |pulses|
  {
    if k == 0 then 0 else 2 * ReceivedNumber(pulses, k - 1) + Received(pulses[k - 1])
  }

  function Decode(pulses: seq<Pulse>): (bytes: seq<nat>)
    requires |pulses| % 8 == 0
    decreases |pulses|
  {
    if pulses == [] then []
    else
      var n := |pulses| - 8;
      Decode(pulses[..n]) + [ReceivedNumber(pulses[n..], 8)]
  }

  lemma {:induction false} LeadingBits(x: uint8, k: nat)
    requires k <= 8
    ensures ReceivedNumber(EncodeByte(x), k) == x / PowerOfTwo(8 - k)
  {
    if k == 0 {
      EighthPower();
    } else {
      LeadingBits(x, k - 1);
      HalvedQuotient(x, PowerOfTwo(8 - k));
    }
  }

  lemma HalvedQuotient(x: nat, p: nat)
    requires p > 0
    ensures x / p == 2 * (x / (2 * p)) + x / p % 2
  {
    var q, r := x / p, x % p;
    assert x == p * q + r;
    DoubledDivisor(x, p, q / 2, q % 2, r);
  }

  lemma DoubledDivisor(x: nat, p: nat, half: nat, bit: nat, r: nat)
    requires r < p && bit < 2 && x == p * (2 * half + bit) + r
    ensures x / (2 * p) == half
  {
    assert (2 * p) * half == 2 * (p * half);
    assert p * (2 * half + bit) == 2 * (p * half) + p * bit;
    assert p * bit == if bit == 0 then 0 else p;
    RemainderIsUnique(x, 2 * p, half, p * bit + r);
  }

  lemma ByteArrives(x: uint8)
    ensures ReceivedNumber(EncodeByte(x), 8) == x
  {
    LeadingBits(x, 8);
    assert PowerOfTwo(0) == 1;
  }

  lemma DecodeOfConcat(pulses: seq<Pulse>, last: seq<Pulse>)
    requires |pulses| % 8 == 0 && |last| == 8
    ensures Decode(pulses + last) == Decode(pulses) + [ReceivedNumber(last, 8)]
  {
    var n := |pulses|;
    assert (pulses + last)[..n] == pulses && (pulses + last)[n..] == last;
  }

  lemma OneMoreByte(front: seq<uint8>, last: uint8)
    requires Decode(Encode(front)) == front
    ensures Decode(Encode(front + [last])) == front + [last]
  {
    hide Decode, EncodeByte, ReceivedNumber;
    assert (front + [last])[..|front|] == front;
    assert Encode(front + [last]) == Encode(front) + EncodeByte(last);
    ByteArrives(last);
    DecodeOfConcat(Encode(front), EncodeByte(last));
  }

  /** Decoding gives back every frame of every length. */
  lemma {:induction false} DecodeOfEncode(bytes: seq<uint8>)
    ensures Decode(Encode(bytes)) == bytes
  {
    hide Encode, Decode;
    if bytes == [] {
      EmptyFrame();
    } else {
      var n := |bytes| - 1;
      DecodeOfEncode(bytes[..n]);
      OneMoreByte(bytes[..n], bytes[n]);
      assert bytes == bytes[..n] + [bytes[n]];
    }
  }

  lemma EmptyFrame()
    ensures Encode([]) == [] && Decode([]) == []
  {
  }

  lemma {:induction false} EncodeOfConcat(a: seq<uint8>, b: seq<uint8>)
    ensures Encode(a + b) == Encode(a) + Encode(b)
  {
    if b == [] {
      assert a + b == a;
    } else {
      var n := |b| - 1;
      EncodeOfConcat(a, b[..n]);
      assert (a + b)[..|a + b| - 1] == a + b[..n];
    }
  }

  // ---- The show routine ----

  /**
    What outlives a call: whether there is a lock and it is held, room in the pulse buffer, the
    initialised pin, the frames sent.
  */
  datatype Line = Line(created: bool, held: bool, room: nat, pin: int, sent: seq<seq<Pulse>>)

  /**
    A frame to show; whether other threads give the lock back in time, and whether a buffer and the pin
    could be had.
  */
  datatype Call = Call(pin: uint8, pixels: seq<uint8>, inTime: bool, memory: bool, initialises: bool)

  /** The call gets the lock. */
  predicate Takes(line: Line, call: Call) {
    line.created && !line.held && call.inTime
  }

  function Room(line: Line, call: Call): nat {
    if 8 * |call.pixels| > line.room then (if call.memory then 8 * |call.pixels| else 0)
    else if call.pixels == [] then 0
    else line.room
  }

  /** There is something to show and room to show it. */
  predicate Ready(line: Line, call: Call) {
    Takes(line, call) && call.pixels != [] && (8 * |call.pixels| <= line.room || call.memory)
  }

  /** Exactly when a frame reaches the wire. */
  predicate Sends(line: Line, call: Call) {
    Ready(line, call) && (line.pin == call.pin || call.initialises)
  }

  /** Exactly when a call returns without giving the lock back. */
  predicate Leaks(line: Line, call: Call) {
    Ready(line, call) && line.pin != call.pin && !call.initialises
  }

  function PinAfter(line: Line, call: Call): int {
    if call.pixels == [] then -1
    else if Sends(line, call) then call.pin
    else if Leaks(line, call) then -1
    else line.pin
  }

  function AfterCall(line: Line, call: Call): Line {
    if !Takes(line, call) then line
    else Line(true, Leaks(line, call), Room(line, call), PinAfter(line, call),
              if Sends(line, call) then line.sent + [Encode(call.pixels)] else line.sent)
  }

  /**
    Case by case: no lock, no effect; an empty frame releases buffer and pin; without memory for a larger buffer
    there is none left; otherwise the buffer holds at least the frame, and the frame goes out on its pin unless
    that cannot be initialised, in which case the lock is kept.
  */
  lemma CallIs(line: Line, call: Call)
    ensures var n, after := 8 * |call.pixels|, AfterCall(line, call);
            if !line.created || line.held || !call.inTime then after == line
            else if n == 0 then after == Line(true, false, 0, -1, line.sent)
            else if n > line.room && !call.memory then after == Line(true, false, 0, line.pin, line.sent)
            else
              && after.created && after.room >= n && after.room >= line.room
              && (after.room == n || after.room == line.room)
              && (if line.pin == call.pin || call.initialises
                  then !after.held && after.pin == call.pin && after.sent == line.sent + [Encode(call.pixels)]
                  else after.held && after.pin == -1 && after.sent == line.sent)
  {
  }

  class RmtLine {
    /** The pulse buffer; without one it has no elements. */
    var ledData: array<Pulse>
    /** The initialised pin, or -1. */
    var rmtPin: int
    /** Whether the lock exists, and whether a call has kept it. */
    var showMutexCreated: bool
    var showMutexHeld: bool
    /** Everything written to the wire. */
    ghost var sent: seq<seq<Pulse>>

    ghost function Abstract(): Line
      reads this
    {
      Line(showMutexCreated, showMutexHeld, ledData.Length, rmtPin, sent)
    }

    ghost predicate Valid()
      reads this
    {
      -1 <= rmtPin < 0x100
    }

    constructor ()
      ensures Valid() && fresh(ledData) && Abstract() == Line(false, false, 0, -1, [])
    {
      ledData := new Pulse[0];
      showMutexCreated, showMutexHeld, rmtPin, sent := false, false, -1, [];
    }

    /** Creates the lock, once for all strips. */
    method EspInit()
      requires Valid()
      modifies this`showMutexCreated
      ensures Valid() && Abstract() == old(Abstract()).(created := true)
    {
      if !showMutexCreated {
        showMutexCreated := true;
      }
    }

    /** Makes room for a frame, or frees everything for an empty one. */
    method Resize(pixels: seq<uint8>, memory: bool)
      requires Valid()
      modifies this`ledData, this`rmtPin
      ensures Valid()
      ensures ledData.Length == Room(old(Abstract()), Call(0, pixels, true, memory, false))
      ensures ledData == old(ledData) || fresh(ledData)
      ensures rmtPin == if pixels == [] then -1 else old(rmtPin)
    {
      var requiredSize := 8 * |pixels|;
      if requiredSize > ledData.Length {
        if memory {
          ledData := new Pulse[requiredSize](_ => ZERO);
        } else {
          ledData := new Pulse[0];
        }
      } else if requiredSize == 0 {
        ledData := new Pulse[0];
        if rmtPin >= 0 {
          rmtPin := -1;
        }
      }
    }

    /** Writes the pulses of a frame over the start of the buffer. */
    method FillBuffer(pixels: seq<uint8>)
      requires 8 * |pixels| <= ledData.Length
      modifies ledData
      ensures ledData[..8 * |pixels|] == Encode(pixels)
    {
      var i := 0;
      for b := 0 to |pixels|
        invariant i == 8 * b
        invariant ledData[..i] == Encode(pixels[..b])
      {
        ghost var done := ledData[..i];
        for bit := 0 to 8
          invariant i == 8 * b + bit
          invariant ledData[..8 * b] == done
          invariant forall k :: 0 <= k < bit ==> ledData[8 * b + k] == PulseOf(BitOf(pixels[b], k))
        {
          ledData[i] := if BitOf(pixels[b], bit) then Pulse(8, 4) else Pulse(4, 8);
          i := i + 1;
        }
        assert ledData[..i] == done + EncodeByte(pixels[b]);
        assert pixels[..b + 1][..b] == pixels[..b];
      }
      assert pixels[..|pixels|] == pixels;
    }

    method EspShow(pin: uint8, pixels: seq<uint8>, inTime: bool, memory: bool, initialises: bool)
      requires Valid()
      modifies this, ledData
      ensures Valid() && (ledData == old(ledData) || fresh(ledData))
      ensures Abstract() == AfterCall(old(Abstract()), Call(pin, pixels, inTime, memory, initialises))
    {
      if !showMutexCreated || showMutexHeld || !inTime {
        return;
      }
      showMutexHeld := true;
      Resize(pixels, memory);
      if ledData.Length > 0 && 8 * |pixels| <= ledData.Length {
        if pin != rmtPin {
          if rmtPin >= 0 {
            rmtPin := -1;
          }
          if !initialises {
            return;
          }
          rmtPin := pin;
        }
        if rmtPin >= 0 {
          FillBuffer(pixels);
          sent := sent + [ledData[..8 * |pixels|]];
        }
      }
      showMutexHeld := false;
    }
  }

  // ---- Runs of calls ----

  function Run(line: Line, calls: seq<Call>): Line {
    if calls == [] then line else AfterCall(Run(line, calls[..|calls| - 1]), calls[|calls| - 1])
  }

  /** A lock that was not given back silences the line for good. */
  lemma {:induction false} HeldStaysHeld(line: Line, calls: seq<Call>)
    requires line.held
    ensures Run(line, calls) == line
  {
    if calls != [] {
      HeldStaysHeld(line, calls[..|calls| - 1]);
    }
  }

  lemma {:induction false} RunOfConcat(line: Line, a: seq<Call>, b: seq<Call>)
    ensures Run(line, a + b) == Run(Run(line, a), b)
  {
    if b == [] {
      assert a + b == a;
    } else {
      RunOfConcat(line, a, b[..|b| - 1]);
      assert (a + b)[..|a + b| - 1] == a + b[..|b| - 1];
    }
  }

  /** The frames of a run, as a receiver should see them. */
  function Frames(calls: seq<Call>): seq<seq<Pulse>> {
    seq(|calls|, i requires 0 <= i < |calls| => Encode(calls[i].pixels))
  }

  /** Non-empty frames, with memory and without other threads in the way. */
  predicate Ordinary(calls: seq<Call>) {
    forall i :: 0 <= i < |calls| ==> calls[i].pixels != [] && calls[i].memory && calls[i].inTime
  }

  /** The pin before a call of a run that has gone well so far. */
  function PinBefore(pin: int, calls: seq<Call>, i: nat): int
    requires i <= |calls|
  {
    if i == 0 then pin else calls[i - 1].pin
  }

  /** A call that is for the pin of the one before it, or can initialise its own. */
  predicate Initialised(pin: int, calls: seq<Call>, i: nat)
    requires i < |calls|
  {
    calls[i].initialises || calls[i].pin == PinBefore(pin, calls, i)
  }

  predicate AllInitialised(pin: int, calls: seq<Call>) {
    forall i: nat :: i < |calls| ==> Initialised(pin, calls, i)
  }

  lemma OneMoreInitialised(pin: int, calls: seq<Call>)
    requires calls != []
    ensures var n := |calls| - 1;
            AllInitialised(pin, calls) <==> AllInitialised(pin, calls[..n]) && Initialised(pin, calls, n)
  {
    var n := |calls| - 1;
    forall i: nat | i < n ensures Initialised(pin, calls[..n], i) == Initialised(pin, calls, i) {
    }
  }

  lemma {:induction false} FreeLineDelivers(line: Line, calls: seq<Call>)
    requires line.created && !line.held && Ordinary(calls)
    ensures var after := Run(line, calls);
            && after.created
            && (after.held <==> !AllInitialised(line.pin, calls))
            && (!after.held ==>
                after.pin == PinBefore(line.pin, calls, |calls|) && after.sent == line.sent + Frames(calls))
            && (after.held ==> |after.sent| < |line.sent| + |calls|)
  {
    if calls != [] {
      var n := |calls| - 1;
      FreeLineDelivers(line, calls[..n]);
      OneMoreInitialised(line.pin, calls);
      assert Frames(calls) == Frames(calls[..n]) + [Encode(calls[n].pixels)];
    }
  }

  /**
    A run from a free line delivers every frame exactly when every call is for the pin of the one
    before it, or can initialise its own.
  */
  lemma DeliversAllIff(line: Line, calls: seq<Call>)
    requires line.created && !line.held && Ordinary(calls)
    ensures Run(line, calls).sent == line.sent + Frames(calls) <==> AllInitialised(line.pin, calls)
  {
    FreeLineDelivers(line, calls);
  }

  /** A failed initialisation loses its own frame and every later one. */
  lemma LeakLosesTheRest(line: Line, before: seq<Call>, call: Call, after: seq<Call>)
    requires Leaks(Run(line, before), call)
    ensures Run(line, before + [call] + after).sent == Run(line, before).sent
  {
    RunOfConcat(line, before, [call]);
    assert [call][..0] == [];
    RunOfConcat(line, before + [call], after);
    HeldStaysHeld(Run(line, before + [call]), after);
  }

  /** Two frames for a new pin that cannot be initialised the first time: neither arrives. */
  lemma InitialisationFailureSilencesLine() returns (calls: seq<Call>)
    ensures Ordinary(calls) && |calls| == 2 && calls[1].initialises
    ensures Run(Line(true, false, 0, -1, []), calls).sent == []
  {
    var first, second := Call(5, [1], true, true, false), Call(5, [2], true, true, true);
    calls := [first, second];
    var line := Line(true, false, 0, -1, []);
    assert calls == [] + [first] + [second] && Run(line, []) == line;
    LeakLosesTheRest(line, [], first, [second]);
  }

  // ---- The chunked adapter ----

  /**
    Translates whole bytes until the source is used up or enough pulses are made; nothing without
    source or destination.
  */
  method Adapt(source: Option<seq<uint8>>, hasDestination: bool, wantedNum: nat)
      returns (translatedSize: nat, items: seq<Pulse>)
    ensures source.None? || !hasDestination ==> translatedSize == 0 && items == []
    ensures source.Some? && hasDestination ==>
              && translatedSize == Min(|source.value|, (wantedNum + 7) / 8)
              && items == Encode(source.value[..translatedSize])
  {
    translatedSize, items := 0, [];
    if source.None? || !hasDestination {
      return;
    }
    var src := source.value;
    while translatedSize < |src| && |items| < wantedNum
      invariant translatedSize <= Min(|src|, (wantedNum + 7) / 8)
      invariant items == Encode(src[..translatedSize])
    {
      var byte: seq<Pulse> := [];
      for i := 0 to 8
        invariant |byte| == i && forall k :: 0 <= k < i ==> byte[k] == PulseOf(BitOf(src[translatedSize], k))
      {
        byte := byte + [if BitOf(src[translatedSize], i) then ONE else ZERO];
      }
      assert byte == EncodeByte(src[translatedSize]);
      assert src[..translatedSize + 1][..translatedSize] == src[..translatedSize];
      items := items + byte;
      translatedSize := translatedSize + 1;
    }
  }

  /** A transfer asks for chunks until the whole frame went out; the chunks make up the frame whatever their sizes. */
  method Transfer(src: seq<uint8>, wanted: seq<nat>) returns (rest: seq<uint8>, items: seq<Pulse>)
    ensures exists n :: 0 <= n <= |src| && rest == src[n..] && items == Encode(src[..n])
    ensures (forall i :: 0 <= i < |wanted| ==> wanted[i] > 0) && |wanted| >= |src| ==>
              rest == [] && items == Encode(src)
  {
    hide Encode;
    rest, items := src, [];
    var n := 0;
    EmptyFrame();
    for c := 0 to |wanted|
      invariant n <= |src| && rest == src[n..] && items == Encode(src[..n])
      invariant (forall i :: 0 <= i < |wanted| ==> wanted[i] > 0) ==> n >= Min(c, |src|)
    {
      var size, chunk := Adapt(Some(rest), true, wanted[c]);
      EncodeOfConcat(src[..n], rest[..size]);
      assert src[..n] + rest[..size] == src[..n + size];
      items := items + chunk;
      rest := rest[size..];
      n := n + size;
    }
    assert n == |src| ==> src[..n] == src;
  }
}
