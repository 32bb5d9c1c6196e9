/**
  GPIO channel configuration: the table of pins that may be used, the validity of a channel,
  and the normalisation that turns any configuration into one entry per allowed pin.
*/
module GpioConfig {
  import opened Words
  import opened Options

  const MAX_CHANNELS := 8
  const DEFAULT_DEBOUNCE_MS: uint16 := 50
  const MAX_DEBOUNCE_MS: uint16 := 5000

  const MODE_DISABLED: uint8 := 0
  const MODE_INPUT: uint8 := 1
  const MODE_OUTPUT: uint8 := 2

  const PULL_NONE: uint8 := 0
  const PULL_UP: uint8 := 1
  const PULL_DOWN: uint8 := 2

  datatype Channel = Channel(
    id: string,
    name: string,
    pin: uint8,
    mode: uint8,
    pull: uint8,
    inverted: bool,
    debounceMs: uint16,
    initialOutput: bool)

  const BLANK := Channel("", "", 0, MODE_DISABLED, PULL_NONE, false, DEFAULT_DEBOUNCE_MS, false)

  datatype Pin = Pin(
    pin: uint8,
    id: string,
    name: string,
    allowInput: bool,
    allowOutput: bool,
    allowPullup: bool,
    allowPulldown: bool)

  /** A pin table: at most one entry per channel slot, no two for the same pin or id, all named. */
  predicate IsTable(pins: seq<Pin>) {
    && |pins| <= MAX_CHANNELS
    && (forall j, k :: 0 <= j < k < |pins| ==> pins[j].id != pins[k].id && pins[j].pin != pins[k].pin)
    && (forall j :: 0 <= j < |pins| ==> pins[j].name != "")
  }

  type Pins = pins: seq<Pin> | IsTable(pins) witness []

  const ALLOWED_PINS: seq<Pin> := [
    Pin(1, "gpio1", "GPIO 1", true, true, true, true),
    Pin(2, "gpio2", "GPIO 2", true, true, true, true),
    Pin(4, "gpio4", "GPIO 4", true, true, true, true),
    Pin(5, "gpio5", "GPIO 5", true, true, true, true),
    Pin(38, "gpio38", "GPIO 38", true, true, true, true),
    Pin(39, "gpio39", "GPIO 39", true, true, true, true),
    Pin(40, "gpio40", "GPIO 40", true, true, true, true)
  ]

  /** The number at the end of an id like "gpio38". */
  function NumberIn(id: string): int
    requires |id| == 5 || |id| == 6
  {
    var first := id[4] as int - '0' as int;
    if |id| == 5 then first else 10 * first + id[5] as int - '0' as int
  }

  lemma AllowedPinShape(i: nat)
    requires i < |ALLOWED_PINS|
    ensures |ALLOWED_PINS[i].id| == 5 || |ALLOWED_PINS[i].id| == 6
    ensures NumberIn(ALLOWED_PINS[i].id) == ALLOWED_PINS[i].pin && ALLOWED_PINS[i].name != ""
  {
  }

  lemma AllowedPinsIncrease(i: nat, j: nat)
    requires i < j < |ALLOWED_PINS|
    ensures ALLOWED_PINS[i].pin < ALLOWED_PINS[j].pin
  {
  }

  /** The board's table is one: every id ends in its pin's number. */
  lemma AllowedPinsAreTable()
    ensures IsTable(ALLOWED_PINS)
  {
    forall i, j | 0 <= i < j < |ALLOWED_PINS|
      ensures ALLOWED_PINS[i].id != ALLOWED_PINS[j].id && ALLOWED_PINS[i].pin != ALLOWED_PINS[j].pin
    {
      AllowedPinsIncrease(i, j);
      AllowedPinShape(i);
      AllowedPinShape(j);
    }
    forall i | 0 <= i < |ALLOWED_PINS| ensures ALLOWED_PINS[i].name != "" {
      AllowedPinShape(i);
    }
  }

  predicate Matches(c: Channel, p: Pin) {
    c.id == p.id && c.pin == p.pin
  }

  function PinById(pins: Pins, id: string, from: nat := 0): (r: Option<Pin>)
    ensures r.Some? ==> r.value.id == id && r.value in pins
    decreases |pins| - from
  {
    if from >= |pins| then None
    else if pins[from].id == id then Some(pins[from])
    else PinById(pins, id, from + 1)
  }

  predicate ValidChannel(pins: Pins, c: Channel) {
    var pin := PinById(pins, c.id);
    && pin.Some? && pin.value.pin == c.pin
    && c.name != ""
    && c.debounceMs <= MAX_DEBOUNCE_MS
    && (c.mode == MODE_INPUT ==> pin.value.allowInput)
    && (c.mode == MODE_OUTPUT ==> pin.value.allowOutput)
    && (c.pull == PULL_UP ==> pin.value.allowPullup)
    && (c.pull == PULL_DOWN ==> pin.value.allowPulldown)
    && (c.mode == MODE_DISABLED || c.mode == MODE_INPUT || c.mode == MODE_OUTPUT)
  }

  function DefaultChannel(p: Pin): Channel {
    BLANK.(id := p.id, name := p.name, pin := p.pin)
  }

  function Repaired(c: Channel, p: Pin): Channel {
    c.(name := if c.name == "" then p.name else c.name,
       debounceMs := if c.debounceMs > MAX_DEBOUNCE_MS then MAX_DEBOUNCE_MS else c.debounceMs)
  }

  // ---- What normalisation means ----

  /** The last channel whose id and pin are both those of p. */
  function LastMatch(channels: seq<Channel>, p: Pin): (r: Option<nat>)
    ensures r.Some? ==> r.value < |channels| && Matches(channels[r.value], p)
    ensures r.Some? ==> forall i :: r.value < i < |channels| ==> !Matches(channels[i], p)
    ensures r.None? ==> forall i :: 0 <= i < |channels| ==> !Matches(channels[i], p)
  {
    if |channels| == 0 then None
    else
      var last := |channels| - 1;
      if Matches(channels[last], p) then Some(last) else LastMatch(channels[..last], p)
  }

  function OrDefault(pins: Pins, c: Channel, p: Pin): Channel {
    if ValidChannel(pins, Repaired(c, p)) then Repaired(c, p) else DefaultChannel(p)
  }

  /** The entry of an allowed pin: its last matching channel repaired, or its default. */
  function Entry(pins: Pins, channels: seq<Channel>, p: Pin): Channel {
    match LastMatch(channels, p)
    case None => DefaultChannel(p)
    case Some(i) => OrDefault(pins, channels[i], p)
  }

  function Normalized(pins: Pins, channels: seq<Channel>): (r: seq<Channel>)
    ensures |r| == MAX_CHANNELS
  {
    seq(MAX_CHANNELS, j requires 0 <= j < MAX_CHANNELS =>
      if j < |pins| then Entry(pins, channels, pins[j]) else BLANK)
  }

  /** The channel names an allowed pin and is valid once repaired. */
  ghost predicate Acceptable(pins: Pins, c: Channel) {
    exists j :: 0 <= j < |pins| && Matches(c, pins[j]) && ValidChannel(pins, Repaired(c, pins[j]))
  }

  ghost predicate AllAcceptable(pins: Pins, channels: seq<Channel>) {
    forall i :: 0 <= i < |channels| ==> Acceptable(pins, channels[i])
  }

  /** One valid entry per allowed pin, in table order. */
  ghost predicate NormalForm(pins: Pins, channels: seq<Channel>) {
    && |channels| == MAX_CHANNELS
    && (forall j :: 0 <= j < |pins| ==> Matches(channels[j], pins[j]) && ValidChannel(pins, channels[j]))
    && (forall j :: |pins| <= j < MAX_CHANNELS ==> channels[j] == BLANK)
  }

  lemma PinByIdFinds(pins: Pins, j: nat, from: nat)
    requires from <= j < |pins|
    ensures PinById(pins, pins[j].id, from) == Some(pins[j])
    decreases |pins| - from
  {
    if from < j {
      PinByIdFinds(pins, j, from + 1);
    }
  }

  lemma DefaultIsValid(pins: Pins, j: nat)
    requires j < |pins|
    ensures ValidChannel(pins, DefaultChannel(pins[j])) && Matches(DefaultChannel(pins[j]), pins[j])
  {
    PinByIdFinds(pins, j, 0);
    assert pins[j].name != "";
  }

  lemma ValidNeedsNoRepair(pins: Pins, c: Channel, p: Pin)
    requires ValidChannel(pins, c)
    ensures Repaired(c, p) == c
  {
  }

  /** Normalising always gives the normal form. */
  lemma NormalizedIsNormal(pins: Pins, channels: seq<Channel>)
    ensures NormalForm(pins, Normalized(pins, channels))
  {
    forall j | 0 <= j < |pins|
      ensures Matches(Normalized(pins, channels)[j], pins[j]) && ValidChannel(pins, Normalized(pins, channels)[j])
    {
      DefaultIsValid(pins, j);
    }
  }

  /** A normal form has no two entries with the same pin or the same id. */
  lemma NormalHasNoDuplicates(pins: Pins, channels: seq<Channel>, i: nat, j: nat)
    requires NormalForm(pins, channels) && i < j < |pins|
    ensures channels[i].pin != channels[j].pin && channels[i].id != channels[j].id
  {
  }

  /** A channel that is already valid and in place survives normalisation. */
  lemma NormalEntryKept(pins: Pins, channels: seq<Channel>, j: nat)
    requires NormalForm(pins, channels) && j < |pins|
    ensures Entry(pins, channels[..|pins|], pins[j]) == channels[j] && Acceptable(pins, channels[j])
  {
    var used := channels[..|pins|];
    assert Matches(used[j], pins[j]);
    ValidNeedsNoRepair(pins, channels[j], pins[j]);
  }

  /** Normalisation accepts normal forms and leaves exactly them alone. */
  lemma NormalizeKeepsExactlyNormalForms(pins: Pins, channels: seq<Channel>)
    requires |channels| == MAX_CHANNELS
    ensures NormalForm(pins, channels) <==> Normalized(pins, channels[..|pins|]) == channels
    ensures NormalForm(pins, channels) ==> AllAcceptable(pins, channels[..|pins|])
  {
    hide Matches, ValidChannel, Acceptable, Entry, DefaultChannel;
    NormalizedIsNormal(pins, channels[..|pins|]);
    if NormalForm(pins, channels) {
      forall j: nat | j < |pins|
        ensures Entry(pins, channels[..|pins|], pins[j]) == channels[j] && Acceptable(pins, channels[j])
      {
        NormalEntryKept(pins, channels, j);
      }
    }
  }

  /** So a second pass changes nothing and reports success. */
  lemma NormalizeTwice(pins: Pins, channels: seq<Channel>)
    ensures Normalized(pins, Normalized(pins, channels)[..|pins|]) == Normalized(pins, channels)
    ensures AllAcceptable(pins, Normalized(pins, channels)[..|pins|])
  {
    NormalizedIsNormal(pins, channels);
    NormalizeKeepsExactlyNormalForms(pins, Normalized(pins, channels));
  }

  /**
    What becomes of the last channel for an allowed pin: its settings are kept, but for a missing name and a
    debounce time above five seconds, if the pin allows mode and pull; otherwise the pin is disabled.
  */
  lemma EntryIs(pins: Pins, channels: seq<Channel>, j: nat, i: nat)
    requires j < |pins| && i < |channels| && Matches(channels[i], pins[j])
    requires forall k :: i < k < |channels| ==> !Matches(channels[k], pins[j])
    ensures var c, p, e := channels[i], pins[j], Normalized(pins, channels)[j];
            if (c.mode == 0 || (c.mode == 1 && p.allowInput) || (c.mode == 2 && p.allowOutput))
                 && (c.pull == 1 ==> p.allowPullup) && (c.pull == 2 ==> p.allowPulldown)
            then e == Channel(c.id, if c.name != "" then c.name else p.name, c.pin, c.mode, c.pull, c.inverted,
                              Min(c.debounceMs, 5000), c.initialOutput)
            else e == Channel(p.id, p.name, p.pin, 0, 0, false, 50, false)
  {
    PinByIdFinds(pins, j, 0);
    assert pins[j].name != "";
    assert LastMatch(channels, pins[j]) == Some(i);
  }

  /** The entries after those of the pins are blank, eight entries in all. */
  lemma SpareEntryIs(pins: Pins, channels: seq<Channel>, j: nat)
    requires |pins| <= j < 8
    ensures |Normalized(pins, channels)| == 8
    ensures Normalized(pins, channels)[j] == Channel("", "", 0, 0, 0, false, 50, false)
  {
  }

  /** A pin that no channel names is disabled. */
  lemma MissingEntryIs(pins: Pins, channels: seq<Channel>, j: nat)
    requires j < |pins| && forall k :: 0 <= k < |channels| ==> !Matches(channels[k], pins[j])
    ensures Normalized(pins, channels)[j] == Channel(pins[j].id, pins[j].name, pins[j].pin, 0, 0, false, 50, false)
  {
  }

  /** A channel that normalisation may use, as seen by the lookup by id. */
  lemma LookupMatches(pins: Pins, c: Channel)
    ensures (PinById(pins, c.id).Some? && PinById(pins, c.id).value.pin == c.pin)
        <==> exists j :: 0 <= j < |pins| && Matches(c, pins[j])
  {
    if j: nat :| j < |pins| && Matches(c, pins[j]) {
      PinByIdFinds(pins, j, 0);
    }
  }

  lemma NothingUnacceptable(pins: Pins)
    ensures AllAcceptable(pins, [])
  {
  }

  lemma OneMoreAcceptable(pins: Pins, channels: seq<Channel>, c: Channel)
    ensures AllAcceptable(pins, channels + [c]) <==> AllAcceptable(pins, channels) && Acceptable(pins, c)
  {
    hide Acceptable;
    var all := channels + [c];
    assert all[|channels|] == c;
    assert forall i :: 0 <= i < |channels| ==> all[i] == channels[i];
  }

  // ---- The configuration object ----

  class GpioData {
    const channels: array<Channel>
    var channelCount: uint8

    ghost predicate Valid() {
      channels.Length == MAX_CHANNELS
    }

    /** The channels a scan of the configuration looks at. */
    ghost function Used(): seq<Channel>
      requires Valid()
      reads this, channels
    {
      channels[..if channelCount < MAX_CHANNELS then channelCount else MAX_CHANNELS]
    }

    constructor ()
      ensures Valid() && fresh(channels)
      ensures channelCount == 0 && channels[..] == seq(MAX_CHANNELS, _ => BLANK)
    {
      channels := new Channel[MAX_CHANNELS](_ => BLANK);
      channelCount := 0;
    }

    method ApplyDefaultConfig(pins: Pins)
      requires Valid()
      modifies this, channels
      ensures channelCount == |pins| && channels[..] == Normalized(pins, [])
    {
      for i := 0 to MAX_CHANNELS
        invariant forall k :: 0 <= k < i ==> channels[k] == BLANK
      {
        channels[i] := BLANK;
      }
      channelCount := |pins|;
      for i := 0 to |pins|
        invariant forall k :: 0 <= k < i ==> channels[k] == DefaultChannel(pins[k])
        invariant forall k :: i <= k < MAX_CHANNELS ==> channels[k] == BLANK
        invariant channelCount == |pins|
      {
        channels[i] := DefaultChannel(pins[i]);
      }
    }

    method HasDuplicatePinOrId(index: nat) returns (duplicate: bool)
      requires Valid() && index < MAX_CHANNELS
      ensures duplicate <==>
              exists i :: 0 <= i < index
                  && (channels[i].pin == channels[index].pin || channels[i].id == channels[index].id)
    {
      for i := 0 to index
        invariant forall k :: 0 <= k < i ==>
                    channels[k].pin != channels[index].pin && channels[k].id != channels[index].id
      {
        if channels[i].pin == channels[index].pin || channels[i].id == channels[index].id {
          return true;
        }
      }
      return false;
    }

    /** Repairs a channel into the entry of its pin, or resets the entry when that is not enough. */
    method PutRepaired(pins: Pins, j: nat, input: Channel, pin: Pin) returns (ok: bool)
      requires Valid() && j < MAX_CHANNELS && Matches(input, pin)
      modifies channels
      ensures ok == ValidChannel(pins, Repaired(input, pin))
      ensures channels[..] == old(channels[..])[j := OrDefault(pins, input, pin)]
    {
      channels[j] := input.(id := pin.id, pin := pin.pin);
      if channels[j].name == "" {
        channels[j] := channels[j].(name := pin.name);
      }
      if channels[j].debounceMs > MAX_DEBOUNCE_MS {
        channels[j] := channels[j].(debounceMs := MAX_DEBOUNCE_MS);
      }
      assert channels[j] == Repaired(input, pin);
      ok := ValidChannel(pins, channels[j]);
      if !ok {
        channels[j] := DefaultChannel(pin);
      }
    }

    /** The entry whose pin number is that of p. */
    method IndexOfPin(pins: Pins, p: Pin, ghost target: nat) returns (j: nat)
      requires Valid() && channelCount == |pins| && NormalForm(pins, channels[..])
      requires target < |pins| && pins[target].pin == p.pin
      ensures j == target
    {
      j := 0;
      while channels[j].pin != p.pin
        invariant j <= target
        decreases target - j
      {
        assert Matches(channels[..][j], pins[j]);
        assert Matches(channels[..][target], pins[target]);
        j := j + 1;
      }
      assert Matches(channels[..][j], pins[j]);
    }

    /** Replaces the entry of the pin that the channel names, if it names one. */
    method PlaceChannel(pins: Pins, input: Channel, ghost scanned: seq<Channel>) returns (ok: bool)
      requires Valid() && channelCount == |pins|
      requires channels[..] == Normalized(pins, scanned)
      modifies channels
      ensures ok <==> Acceptable(pins, input)
      ensures channels[..] == Normalized(pins, scanned + [input])
    {
      LookupMatches(pins, input);
      NormalizedIsNormal(pins, scanned);
      var pin := PinById(pins, input.id);
      if pin.None? || pin.value.pin != input.pin {
        NormalizedUnmatched(pins, scanned, input);
        return false;
      }
      ghost var target: nat :| target < |pins| && Matches(input, pins[target]);
      PinByIdFinds(pins, target, 0);
      NormalizedMatched(pins, scanned, input, target);
      var j := IndexOfPin(pins, pin.value, target);
      ok := PutRepaired(pins, j, input, pin.value);
    }

    /** Places the channels of another configuration one after the other over the defaults. */
    method PlaceAll(pins: Pins, data: GpioData) returns (ok: bool)
      requires Valid() && data.Valid() && data.channels != channels
      requires channelCount == |pins| && channels[..] == Normalized(pins, [])
      modifies channels
      ensures channels[..] == Normalized(pins, data.Used())
      ensures ok <==> AllAcceptable(pins, data.Used())
    {
      hide Normalized, Acceptable, AllAcceptable;
      ok := true;
      NothingUnacceptable(pins);
      ghost var input := data.Used();
      var i := 0;
      while i < data.channelCount && i < MAX_CHANNELS
        invariant i <= |input| && data.Used() == input
        invariant channels[..] == Normalized(pins, input[..i])
        invariant ok <==> AllAcceptable(pins, input[..i])
      {
        assert input[..i + 1] == input[..i] + [input[i]];
        OneMoreAcceptable(pins, input[..i], input[i]);
        var placed := PlaceChannel(pins, data.channels[i], input[..i]);
        if !placed {
          ok := false;
        }
        i := i + 1;
      }
      assert input[..i] == input;
    }

    /** Two entries share a pin number or an id. */
    ghost predicate Duplicated(i: nat, k: nat)
      requires Valid() && i < MAX_CHANNELS && k < MAX_CHANNELS
      reads channels
    {
      channels[i].pin == channels[k].pin || channels[i].id == channels[k].id
    }

    method HasDuplicates() returns (found: bool)
      requires Valid() && channelCount <= MAX_CHANNELS
      ensures found <==> exists i: nat, k: nat :: i < k < channelCount && Duplicated(i, k)
    {
      for k: int := 0 to channelCount
        invariant forall i: nat, j: nat :: i < j < k ==> !Duplicated(i, j)
      {
        found := HasDuplicatePinOrId(k);
        if found {
          ghost var i: nat :| i < k && (channels[i].pin == channels[k].pin || channels[i].id == channels[k].id);
          assert Duplicated(i, k);
          return true;
        }
      }
      return false;
    }

    /**
      One entry per allowed pin: its last matching channel repaired, or its default. The check
      for duplicates at the end never finds one, so its reset to defaults is never reached.
    */
    method NormalizeConfig(pins: Pins) returns (ok: bool)
      requires Valid()
      modifies this, channels
      ensures channelCount == |pins|
      ensures channels[..] == Normalized(pins, old(Used()))
      ensures ok <==> AllAcceptable(pins, old(Used()))
    {
      var normalized := new GpioData();
      normalized.ApplyDefaultConfig(pins);
      ok := normalized.PlaceAll(pins, this);
      NormalizedIsNormal(pins, Used());
      var duplicates := normalized.HasDuplicates();
      if duplicates {
        assert false;
      }
      CopyFrom(normalized);
    }

    method CopyFrom(other: GpioData)
      requires Valid() && other.Valid() && other != this && other.channels != channels
      modifies this, channels
      ensures channelCount == other.channelCount && channels[..] == other.channels[..]
    {
      channelCount := other.channelCount;
      for k := 0 to MAX_CHANNELS
        invariant forall m :: 0 <= m < k ==> channels[m] == other.channels[m]
        modifies channels
      {
        channels[k] := other.channels[k];
      }
    }
  }

  lemma UnmatchedKeepsEntry(pins: Pins, scanned: seq<Channel>, input: Channel, p: Pin)
    requires !Matches(input, p)
    ensures Entry(pins, scanned + [input], p) == Entry(pins, scanned, p)
  {
    assert (scanned + [input])[..|scanned|] == scanned;
  }

  lemma NormalizedUnmatched(pins: Pins, scanned: seq<Channel>, input: Channel)
    requires forall j :: 0 <= j < |pins| ==> !Matches(input, pins[j])
    ensures Normalized(pins, scanned + [input]) == Normalized(pins, scanned)
    ensures !Acceptable(pins, input)
  {
    forall j | 0 <= j < |pins| ensures Entry(pins, scanned + [input], pins[j]) == Entry(pins, scanned, pins[j]) {
      UnmatchedKeepsEntry(pins, scanned, input, pins[j]);
    }
  }

  lemma NormalizedMatched(pins: Pins, scanned: seq<Channel>, input: Channel, target: nat)
    requires target < |pins| && Matches(input, pins[target])
    ensures Normalized(pins, scanned + [input]) ==
              Normalized(pins, scanned)[target := OrDefault(pins, input, pins[target])]
    ensures Acceptable(pins, input) <==> ValidChannel(pins, Repaired(input, pins[target]))
  {
    forall j: nat | j < |pins| && j != target
      ensures !Matches(input, pins[j]) && Entry(pins, scanned + [input], pins[j]) == Entry(pins, scanned, pins[j])
    {
      UnmatchedKeepsEntry(pins, scanned, input, pins[j]);
    }
    assert Entry(pins, scanned + [input], pins[target]) == OrDefault(pins, input, pins[target]);
  }
}
