/**
  The GPIO service: the shared configuration store, which normalises after every update, and
  the runtime channels that are configured and sampled from it.
*/
module GpioService {
  import opened Words
  import opened Options
  import opened GpioConfig
  import opened Debounce

  /** What readers of the store and of the runtime see. */
  datatype View = View(store: seq<Channel>, runtime: seq<Channel>)

  /** The store is normalised and the runtime runs exactly its channels. */
  ghost predicate Agree(pins: Pins, v: View) {
    NormalForm(pins, v.store) && v.runtime == v.store[..|pins|]
  }

  datatype Operation =
    | UpdateConfig(channels: seq<Channel>, storeLock: bool, runtimeLock: bool)
    | SetOutput(id: string, value: bool, storeLock: bool, runtimeLock: bool)

  /** The first channel with an id; the empty id names none. */
  function IndexOf(channels: seq<Channel>, id: string, from: nat := 0): (r: Option<nat>)
    ensures r.Some? ==> from <= r.value < |channels| && channels[r.value].id == id
    ensures r.None? && id != "" ==> forall k :: from <= k < |channels| ==> channels[k].id != id
    decreases |channels| - from
  {
    if id == "" || from >= |channels| then None
    else if channels[from].id == id then Some(from)
    else IndexOf(channels, id, from + 1)
  }

  function WithInitialOutput(channels: seq<Channel>, id: string, value: bool): seq<Channel> {
    match IndexOf(channels, id)
    case None => channels
    case Some(i) => channels[i := channels[i].(initialOutput := value)]
  }

  /** The runtime would accept a request to drive this channel. */
  predicate Drivable(runtime: seq<Channel>, id: string) {
    match IndexOf(runtime, id)
    case None => false
    case Some(i) => runtime[i].mode == MODE_OUTPUT
  }

  /** Driven is the first channel with the id, if it is an output and the id is not empty. */
  lemma DrivableIff(runtime: seq<Channel>, id: string)
    ensures Drivable(runtime, id) <==>
              && id != ""
              && exists i :: 0 <= i < |runtime| && runtime[i].id == id && runtime[i].mode == 2 && IsFirst(runtime, i)
    ensures forall i :: 0 <= i < |runtime| && runtime[i].id == id != "" && IsFirst(runtime, i) ==>
              IndexOf(runtime, id) == Some(i)
  {
    FirstIndex(runtime, id, 0);
  }

  predicate IsFirst(channels: seq<Channel>, i: int)
    requires 0 <= i < |channels|
  {
    forall k :: 0 <= k < i ==> channels[k].id != channels[i].id
  }

  lemma FirstIndex(channels: seq<Channel>, id: string, from: nat)
    requires forall k :: 0 <= k < from && k < |channels| ==> channels[k].id != id
    ensures IndexOf(channels, id, from).Some? ==> id != "" && IsFirst(channels, IndexOf(channels, id, from).value)
    decreases |channels| - from
  {
    if from < |channels| && id != "" && channels[from].id != id {
      FirstIndex(channels, id, from + 1);
    }
  }

  ghost function Performed(pins: Pins, v: View, op: Operation): View
    requires |v.store| == MAX_CHANNELS
  {
    match op
    case UpdateConfig(channels, storeLock, runtimeLock) =>
      if !AllAcceptable(pins, channels) || !storeLock then v
      else
        var next := Normalized(pins, channels);
        View(Normalized(pins, next[..|pins|]), if runtimeLock then next[..|pins|] else v.runtime)
    case SetOutput(id, value, storeLock, runtimeLock) =>
      if !runtimeLock || !Drivable(v.runtime, id) then v
      else
        View(
          if storeLock then Normalized(pins, WithInitialOutput(v.store[..|pins|], id, value)) else v.store,
          WithInitialOutput(v.runtime, id, value))
  }

  /** Changing what an output starts with keeps a configuration normal. */
  lemma OutputChangeStaysNormal(pins: Pins, store: seq<Channel>, id: string, value: bool)
    requires NormalForm(pins, store)
    ensures Normalized(pins, WithInitialOutput(store[..|pins|], id, value))
         == WithInitialOutput(store[..|pins|], id, value) + store[|pins|..]
    ensures NormalForm(pins, Normalized(pins, WithInitialOutput(store[..|pins|], id, value)))
  {
    var used := store[..|pins|];
    var changed := WithInitialOutput(used, id, value) + store[|pins|..];
    forall j | 0 <= j < |pins| ensures Matches(changed[j], pins[j]) && ValidChannel(pins, changed[j]) {
      assert Matches(store[j], pins[j]) && ValidChannel(pins, store[j]);
    }
    assert NormalForm(pins, changed);
    assert changed[..|pins|] == WithInitialOutput(used, id, value);
    NormalizeKeepsExactlyNormalForms(pins, changed);
  }

  /**
    An operation takes store and runtime apart exactly when it got one of the two locks it needed,
    missed the other, and had something to change.
  */
  lemma AgreementKeptIff(pins: Pins, v: View, op: Operation)
    requires Agree(pins, v)
    ensures Agree(pins, Performed(pins, v, op)) <==>
            match op
            case UpdateConfig(channels, storeLock, runtimeLock) =>
              AllAcceptable(pins, channels) && storeLock && !runtimeLock ==> Normalized(pins, channels) == v.store
            case SetOutput(id, value, storeLock, runtimeLock) =>
              Drivable(v.runtime, id) && runtimeLock && !storeLock ==>
                  WithInitialOutput(v.runtime, id, value) == v.runtime
  {
    match op
    case UpdateConfig(channels, _, _) =>
      NormalizedIsNormal(pins, channels);
      NormalizeTwice(pins, channels);
      var next := Normalized(pins, channels);
      assert next == next[..|pins|] + next[|pins|..];
      assert v.store == v.store[..|pins|] + v.store[|pins|..];
      assert next[|pins|..] == v.store[|pins|..];
    case SetOutput(id, value, _, _) =>
      OutputChangeStaysNormal(pins, v.store, id, value);
  }

  /** Renaming a channel while only the store can be locked: the store has the new name, the runtime the old one. */
  lemma MissedLockBreaksAgreement(pins: Pins) returns (v: View, op: Operation)
    requires |pins| > 0
    ensures Agree(pins, v) && !Agree(pins, Performed(pins, v, op))
  {
    var p := pins[0];
    var renamed := DefaultChannel(p).(name := p.name + "x");
    NormalizedIsNormal(pins, []);
    v := View(Normalized(pins, []), Normalized(pins, [])[..|pins|]);
    op := UpdateConfig([renamed], true, false);
    PinByIdFinds(pins, 0, 0);
    ValidNeedsNoRepair(pins, renamed, p);
    assert Matches([renamed][0], p) && Acceptable(pins, renamed);
    assert LastMatch([renamed], p) == Some(0);
    assert Normalized(pins, [renamed])[0].name != v.store[0].name by {
      assert |renamed.name| == |p.name| + 1;
    }
    AgreementKeptIff(pins, v, op);
  }

  ghost function Run(pins: Pins, v: View, ops: seq<Operation>): View
    requires |v.store| == MAX_CHANNELS
    decreases |ops|
  {
    if |ops| == 0 then v else Run(pins, Performed(pins, v, ops[0]), ops[1..])
  }

  /** No run in which every lock is acquired takes store and runtime apart. */
  lemma {:induction false} RunKeepsAgreement(pins: Pins, v: View, ops: seq<Operation>)
    requires Agree(pins, v)
    requires forall i :: 0 <= i < |ops| ==> ops[i].storeLock && ops[i].runtimeLock
    ensures Agree(pins, Run(pins, v, ops))
    decreases |ops|
  {
    if |ops| > 0 {
      AgreementKeptIff(pins, v, ops[0]);
      RunKeepsAgreement(pins, Performed(pins, v, ops[0]), ops[1..]);
    }
  }

  class GpioService {
    const pins: Pins
    const store: GpioData
    const channels: array<RuntimeChannel>
    var channelCount: uint8
    /** Whether the sampling task runs. */
    var running: bool

    /** Among others: every configured channel shows its accepted raw level, inverted if so configured. */
    ghost predicate Valid()
      reads this, store, channels
    {
      && store.Valid() && store.channelCount == |pins|
      && channels.Length == MAX_CHANNELS && channelCount <= MAX_CHANNELS
      && forall i :: 0 <= i < channelCount && channels[i].configured ==>
           channels[i].logicalLevel == (channels[i].stableRawLevel != channels[i].config.inverted)
    }

    ghost function Configs(): seq<Channel>
      requires Valid()
      reads this, store, channels
    {
      seq(channelCount,
          i requires 0 <= i < channelCount && channels.Length == MAX_CHANNELS && channelCount <= MAX_CHANNELS
            reads this, channels => channels[i].config)
    }

    ghost function GetView(): View
      requires Valid()
      reads this, store, store.channels, channels
    {
      View(store.channels[..], Configs())
    }

    /** Starts with the default configuration in the store and nothing configured. */
    constructor (pins: Pins)
      ensures Valid() && this.pins == pins && channelCount == 0 && !running
      ensures fresh(store) && fresh(store.channels) && fresh(channels)
      ensures store.channels[..] == Normalized(pins, [])
    {
      this.pins := pins;
      var data := new GpioData();
      data.ApplyDefaultConfig(pins);
      store := data;
      channels := new RuntimeChannel[MAX_CHANNELS](_ => Reset(BLANK));
      channelCount, running := 0, false;
    }

    /**
      Applies the stored configuration at start-up and starts the sampling task. When the store
      cannot be locked the copy comes out empty, and the defaults are applied instead.
    */
    method Begin(readLock: bool, lock: bool, task: bool, nowMs: uint32, levels: uint8 -> bool) returns (ok: bool)
      requires Valid()
      modifies this`channelCount, this`running, channels
      ensures Valid() && ok == (lock && task) && running == if lock then task else old(running)
      ensures Configs() == if lock then Normalized(pins, if readLock then store.Used() else [])[..|pins|]
                else old(Configs())
      ensures lock && readLock && NormalForm(pins, store.channels[..]) ==> Agree(pins, GetView())
    {
      hide Normalized, NormalForm, LogicalFromRaw, Configured, AllAcceptable;
      var config := new GpioData();
      if readLock {
        config.CopyFrom(store);
      }
      var accepted := config.NormalizeConfig(pins);
      if !lock {
        return false;
      }
      ApplyConfig(config, nowMs, levels);
      NormalizeKeepsExactlyNormalForms(pins, store.channels[..]);
      running := true;
      if !task {
        running := false;
        return false;
      }
      return true;
    }

    /** Configures the runtime channels afresh; levels is what the pins read. */
    method ApplyConfig(config: GpioData, nowMs: uint32, levels: uint8 -> bool)
      requires Valid() && config.Valid()
      modifies this`channelCount, channels
      ensures Valid()
      ensures channelCount as int == |config.Used()|
      ensures forall i :: 0 <= i < channelCount ==>
                channels[i] == Configured(config.channels[i], nowMs, levels(config.channels[i].pin))
      ensures Configs() == config.Used()
    {
      channelCount := if config.channelCount > MAX_CHANNELS then MAX_CHANNELS else config.channelCount;
      for i := 0 to channelCount
        invariant forall k :: 0 <= k < i ==>
                    channels[k] == Configured(config.channels[k], nowMs, levels(config.channels[k].pin))
        modifies channels
      {
        channels[i] := Reset(config.channels[i]);
        ConfigureChannel(i, nowMs, levels(config.channels[i].pin));
      }
    }

    method ConfigureChannel(i: nat, nowMs: uint32, reading: bool)
      requires channels.Length == MAX_CHANNELS && i < MAX_CHANNELS
      requires channels[i] == Reset(channels[i].config)
      modifies channels
      ensures channels[i] == Configured(old(channels[i].config), nowMs, reading)
      ensures forall k :: 0 <= k < MAX_CHANNELS && k != i ==> channels[k] == old(channels[k])
    {
      channels[i] := channels[i].(configured := false, sampledAtMs := nowMs, changedAtMs := nowMs,
          rawChangedAtMs := nowMs);
      var config := channels[i].config;
      if config.mode == MODE_DISABLED {
        channels[i] := channels[i].(stable := false);
        return;
      }
      if config.mode == MODE_OUTPUT {
        var raw := if config.inverted then !config.initialOutput else config.initialOutput;
        channels[i] := channels[i].(rawLevel := raw, pendingRawLevel := raw, stableRawLevel := raw,
            logicalLevel := config.initialOutput, stable := true);
      } else {
        var raw := reading;
        channels[i] := channels[i].(rawLevel := raw, pendingRawLevel := raw, stableRawLevel := raw,
            logicalLevel := LogicalFromRaw(raw, config.inverted), stable := true);
      }
      channels[i] := channels[i].(configured := true);
    }

    method SampleInputs(nowMs: uint32, levels: uint8 -> bool)
      requires Valid()
      modifies channels
      ensures Valid() && Configs() == old(Configs())
      ensures forall i :: 0 <= i < channelCount ==>
                channels[i] == if old(channels[i]).config.mode == MODE_INPUT
                  then Sampled(old(channels[i]), levels(old(channels[i]).config.pin), nowMs)
                  else old(channels[i])
    {
      hide Elapsed;
      for i := 0 to channelCount
        invariant forall k :: i <= k < channels.Length ==> channels[k] == old(channels[k])
        invariant forall k :: 0 <= k < i ==>
                  channels[k] == if old(channels[k]).config.mode == MODE_INPUT
                    then Sampled(old(channels[k]), levels(old(channels[k]).config.pin), nowMs)
                    else old(channels[k])
      {
        if channels[i].config.mode == MODE_INPUT {
          SampleInput(i, levels(channels[i].config.pin), nowMs);
        }
      }
      assert forall k :: 0 <= k < channelCount ==> channels[k].config == old(channels[k]).config;
    }

    method SampleInput(i: nat, raw: bool, nowMs: uint32)
      requires channels.Length == MAX_CHANNELS && i < MAX_CHANNELS
      modifies channels
      ensures channels[i] == Sampled(old(channels[i]), raw, nowMs)
      ensures forall k :: 0 <= k < MAX_CHANNELS && k != i ==> channels[k] == old(channels[k])
    {
      channels[i] := channels[i].(rawLevel := raw, sampledAtMs := nowMs);
      if raw != channels[i].pendingRawLevel {
        channels[i] := channels[i].(pendingRawLevel := raw, rawChangedAtMs := nowMs, stable := false);
        return;
      }
      var elapsed := (nowMs - channels[i].rawChangedAtMs) % 0x1_0000_0000;
      if raw != channels[i].stableRawLevel && elapsed >= channels[i].config.debounceMs {
        channels[i] := channels[i].(stableRawLevel := raw,
            logicalLevel := LogicalFromRaw(raw, channels[i].config.inverted),
            changedAtMs := nowMs,
            stable := true);
      } else if raw == channels[i].stableRawLevel && elapsed >= channels[i].config.debounceMs {
        channels[i] := channels[i].(stable := true);
      }
    }

    /** Replaces the stored configuration by one that already passed normalisation. */
    method StoreConfig(normalized: GpioData, lock: bool) returns (ok: bool)
      requires Valid() && normalized.Valid() && normalized.channelCount == |pins|
      requires normalized != store && normalized.channels != store.channels
      modifies store, store.channels
      ensures Valid() && ok == lock
      ensures store.channels[..] == if lock then Normalized(pins, normalized.Used()) else old(store.channels[..])
    {
      if !lock {
        return false;
      }
      store.CopyFrom(normalized);
      var accepted := store.NormalizeConfig(pins);
      return true;
    }

    method UpdateConfig(next: GpioData, persist: bool, storeLock: bool, runtimeLock: bool, save: bool,
        nowMs: uint32, levels: uint8 -> bool)
      returns (ok: bool)
      requires Valid() && next.Valid() && next != store && next.channels != store.channels
      modifies this`channelCount, store, store.channels, channels
      ensures Valid()
      ensures GetView() ==
                Performed(pins, old(GetView()), Operation.UpdateConfig(old(next.Used()), storeLock, runtimeLock))
      ensures ok <==> AllAcceptable(pins, old(next.Used())) && storeLock && runtimeLock && (persist ==> save)
    {
      var normalized := new GpioData();
      normalized.CopyFrom(next);
      var accepted := normalized.NormalizeConfig(pins);
      if !accepted {
        return false;
      }
      var stored := StoreConfig(normalized, storeLock);
      if !stored {
        return false;
      }
      if !runtimeLock {
        return false;
      }
      ApplyConfig(normalized, nowMs, levels);
      return persist ==> save;
    }

    method FindChannelIndex(id: string) returns (index: Option<nat>)
      requires Valid()
      ensures index == IndexOf(Configs(), id)
    {
      if id == "" {
        return None;
      }
      for i := 0 to channelCount
        invariant IndexOf(Configs(), id) == IndexOf(Configs(), id, i)
      {
        if channels[i].config.id == id {
          return Some(i);
        }
      }
      return None;
    }

    /** Remembers in the store what an output starts with, then re-normalises. */
    method StoreInitialOutput(id: string, value: bool, lock: bool) returns (ok: bool)
      requires Valid()
      modifies store, store.channels
      ensures Valid() && ok == lock
      ensures store.channels[..] == if lock
                then Normalized(pins, WithInitialOutput(old(store.channels[..|pins|]), id, value))
                else old(store.channels[..])
    {
      if !lock {
        return false;
      }
      ghost var used := store.channels[..|pins|];
      var i := 0;
      while i < store.channelCount && store.channels[i].id != id
        invariant i <= |pins|
        invariant id != "" ==> IndexOf(used, id) == IndexOf(used, id, i)
        invariant forall k :: 0 <= k < i ==> used[k].id != id
      {
        i := i + 1;
      }
      if i < store.channelCount && id != "" {
        store.channels[i] := store.channels[i].(initialOutput := value);
      }
      assert store.channels[..|pins|] == WithInitialOutput(used, id, value);
      var accepted := store.NormalizeConfig(pins);
      return true;
    }

    method DriveChannel(i: nat, value: bool, nowMs: uint32)
      requires channels.Length == MAX_CHANNELS && i < MAX_CHANNELS
      modifies channels
      ensures channels[i] == Driven(old(channels[i]), value, nowMs)
      ensures forall k :: 0 <= k < MAX_CHANNELS && k != i ==> channels[k] == old(channels[k])
    {
      var raw := if channels[i].config.inverted then !value else value;
      channels[i] := channels[i].(rawLevel := raw, pendingRawLevel := raw, stableRawLevel := raw, logicalLevel := value,
          stable := true, sampledAtMs := nowMs, changedAtMs := nowMs);
      channels[i] := channels[i].(config := channels[i].config.(initialOutput := value));
    }

    method SetOutput(id: string, value: bool, persist: bool, storeLock: bool, runtimeLock: bool, save: bool,
        nowMs: uint32)
      returns (ok: bool)
      requires Valid()
      modifies store, store.channels, channels
      ensures Valid() && channelCount == old(channelCount)
      ensures GetView() == Performed(pins, old(GetView()), Operation.SetOutput(id, value, storeLock, runtimeLock))
      ensures ok <==> runtimeLock && Drivable(old(Configs()), id) && storeLock && (persist ==> save)
      ensures forall k :: 0 <= k < channelCount ==>
                channels[k] == if runtimeLock && Drivable(old(Configs()), id) && IndexOf(old(Configs()), id) == Some(k)
                  then Driven(old(channels[k]), value, nowMs)
                  else old(channels[k])
    {
      hide Normalized, NormalForm, Driven;
      if !runtimeLock {
        return false;
      }
      var index := FindChannelIndex(id);
      if index.None? || channels[index.value].config.mode != MODE_OUTPUT {
        return false;
      }
      DrivenLevels(channels[index.value], value, nowMs);
      DriveChannel(index.value, value, nowMs);
      assert Configs() == WithInitialOutput(old(Configs()), id, value);
      var stored := StoreInitialOutput(id, value, storeLock);
      if !stored {
        return false;
      }
      return persist ==> save;
    }
  }

  /** A driven output shows the level, inverted on the pin if so configured, and starts with it from then on. */
  lemma DrivenLevels(ch: RuntimeChannel, value: bool, nowMs: uint32)
    ensures var after := Driven(ch, value, nowMs);
            && after.logicalLevel == value && after.stableRawLevel == (value != ch.config.inverted)
            && after.rawLevel == after.pendingRawLevel == after.stableRawLevel && after.stable
            && after.config == ch.config.(initialOutput := value) && after.configured == ch.configured
            && after.sampledAtMs == after.changedAtMs == nowMs && after.rawChangedAtMs == ch.rawChangedAtMs
  {
  }

  /** An output channel after it was told to show a logical level. */
  function Driven(ch: RuntimeChannel, value: bool, nowMs: uint32): RuntimeChannel {
    Settled(ch, LogicalFromRaw(value, ch.config.inverted))
      .(sampledAtMs := nowMs, changedAtMs := nowMs, config := ch.config.(initialOutput := value))
  }
}
