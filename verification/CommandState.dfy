/**
  Requests made to the display between passes of its loop: what is pending, in which order the
  loop gets it, which requests are lost, and the background that is remembered.
*/
module CommandState {
  import opened Words
  import opened Options
  import opened MatrixDisplay

  const TEXT_CAPACITY := 96

  datatype Mode = Off | Passive | ActiveIcon | ActiveText | ActiveSolid | ActiveEffect | ActiveDataVisualization

  /** A request that sets what the loop polls; the display's own commands and four more. */
  datatype Request =
    | Show(command: Command)
    | SetThermalLimit(limit: uint8)
    | Notify(color: uint32)
    | ForgetEffect
    | ForgetDataVisualization

  /** Something to show, for a time or, with duration 0, until further notice. */
  datatype Timed<T> = Timed(item: T, durationMs: uint32)

  datatype Colored = Colored(text: string, color: uint32)

  /** What is pending, a slot for each kind of command; the brightness keeps its value when it is not pending. */
  datatype Pending = Pending(
    brightnessDirty: bool,
    brightness: uint8,
    userBrightness: uint8,
    thermalLimit: uint8,
    rotation: Option<uint8>,
    clear: Option<bool>,
    icon: Option<Timed<IconType>>,
    text: Option<Timed<Colored>>,
    solid: Option<uint32>,
    effect: Option<Timed<Effect>>,
    visualization: Option<Timed<nat>>,
    notificationColor: uint32,
    mode: Mode,
    background: Background)

  const INITIAL := Pending(false, 0, 20, 255, None, None, None, None, None, None, None, 0, Off, Background(None, None))

  /** Text that does not fit is cut; one character is kept for the terminator. */
  function Truncated(text: string): string {
    if |text| < TEXT_CAPACITY then text else text[..TEXT_CAPACITY - 1]
  }

  /** Kept are the first 95 characters. */
  lemma TruncatedIs(text: string)
    ensures |Truncated(text)| == Min(|text|, 95) && Truncated(text) == text[..|Truncated(text)|]
  {
  }

  // ---- The specification of requests and polls ----

  function Effective(p: Pending): uint8 {
    Min(p.userBrightness, p.thermalLimit)
  }

  function Requested(p: Pending, c: Command): Pending {
    match c
    case SetBrightness(value) =>
      var q := p.(userBrightness := value);
      q.(brightness := Effective(q), brightnessDirty := true)
    case SetRotation(rotation) => p.(rotation := Some(rotation))
    case Clear(stopBackground) =>
      p.(clear := Some(stopBackground), mode := Off,
         background := if stopBackground then Background(None, None) else p.background)
    case ShowIcon(icon, durationMs) =>
      p.(icon := Some(Timed(icon, durationMs)), text := None, solid := None, effect := None, visualization := None,
         mode := ActiveIcon)
    case ShowText(text, color, durationMs) =>
      p.(text := Some(Timed(Colored(Truncated(text), color), durationMs)), solid := None, effect := None,
         visualization := None, mode := ActiveText)
    case ShowSolid(color) => p.(solid := Some(color), mode := ActiveSolid)
    case ShowEffect(effect, durationMs) =>
      p.(effect := Some(Timed(effect, durationMs)), visualization := None, mode := ActiveEffect,
         background := if durationMs == 0 then Background(None, Some(effect)) else p.background)
    case ShowDataVisualization(config, durationMs) =>
      p.(visualization := Some(Timed(config, durationMs)), effect := None, mode := ActiveDataVisualization,
         background := if durationMs == 0 then Background(Some(config), None) else p.background)
  }

  function After(p: Pending, r: Request): Pending {
    match r
    case Show(command) => Requested(p, command)
    case SetThermalLimit(limit) =>
      var q := p.(thermalLimit := limit);
      if q.brightness == Effective(q) then q else q.(brightness := Effective(q), brightnessDirty := true)
    case Notify(color) =>
      if (p.mode == Off || p.mode == Passive) && p.notificationColor != color
      then p.(notificationColor := color, solid := Some(color), mode := Passive)
      else p
    case ForgetEffect => p.(background := p.background.(effect := None))
    case ForgetDataVisualization => p.(background := p.background.(visualization := None))
  }

  /** The next command for the loop, and what is pending without it; a clear takes everything else with it. */
  function Polled(p: Pending): (Option<Command>, Pending) {
    if p.brightnessDirty then (Some(SetBrightness(p.brightness)), p.(brightnessDirty := false))
    else if p.rotation.Some? then (Some(SetRotation(p.rotation.value)), p.(rotation := None))
    else if p.clear.Some? then
      (Some(Clear(p.clear.value)),
          p.(clear := None, icon := None, text := None, solid := None, effect := None, visualization := None))
    else if p.icon.Some? then (Some(IconCommand(p.icon.value)), p.(icon := None))
    else if p.text.Some? then (Some(TextCommand(p.text.value)), p.(text := None))
    else if p.solid.Some? then (Some(ShowSolid(p.solid.value)), p.(solid := None))
    else if p.effect.Some? then (Some(EffectCommand(p.effect.value)), p.(effect := None))
    else if p.visualization.Some? then (Some(VisualizationCommand(p.visualization.value)), p.(visualization := None))
    else (None, p)
  }

  function IconCommand(t: Timed<IconType>): Command {
    ShowIcon(t.item, t.durationMs)
  }

  function TextCommand(t: Timed<Colored>): Command {
    ShowText(t.item.text, t.item.color, t.durationMs)
  }

  function EffectCommand(t: Timed<Effect>): Command {
    ShowEffect(t.item, t.durationMs)
  }

  function VisualizationCommand(t: Timed<nat>): Command {
    ShowDataVisualization(t.item, t.durationMs)
  }

  class MatrixState {
    var brightnessDirty: bool
    var pendingBrightness: uint8
    var userTargetBrightness: uint8
    var thermalLimit: uint8
    var pendingRotation: Option<uint8>
    var pendingClear: Option<bool>
    var pendingIcon: Option<Timed<IconType>>
    var pendingText: Option<Timed<Colored>>
    var pendingSolid: Option<uint32>
    var pendingEffect: Option<Timed<Effect>>
    var pendingVisualization: Option<Timed<nat>>
    var notificationColor: uint32
    var currentMode: Mode
    var background: Background

    ghost function Abstract(): Pending
      reads this
    {
      Pending(brightnessDirty, pendingBrightness, userTargetBrightness, thermalLimit, pendingRotation, pendingClear,
              pendingIcon, pendingText, pendingSolid, pendingEffect, pendingVisualization, notificationColor,
              currentMode, background)
    }

    constructor ()
      ensures Abstract() == INITIAL
    {
      brightnessDirty, pendingBrightness, userTargetBrightness, thermalLimit := false, 0, 20, 255;
      pendingRotation, pendingClear, pendingIcon, pendingText := None, None, None, None;
      pendingSolid, pendingEffect, pendingVisualization := None, None, None;
      notificationColor, currentMode, background := 0, Off, Background(None, None);
    }

    method RequestIcon(icon: IconType, durationMs: uint32)
      modifies this
      ensures Abstract() == Requested(old(Abstract()), ShowIcon(icon, durationMs))
    {
      pendingIcon := Some(Timed(icon, durationMs));
      currentMode := ActiveIcon;
      pendingText, pendingSolid, pendingEffect, pendingVisualization := None, None, None, None;
    }

    method RequestText(text: string, color: uint32, durationMs: uint32)
      modifies this
      ensures Abstract() == Requested(old(Abstract()), ShowText(text, color, durationMs))
    {
      var kept := if |text| < TEXT_CAPACITY then text else text[..TEXT_CAPACITY - 1];
      pendingText := Some(Timed(Colored(kept, color), durationMs));
      currentMode := ActiveText;
      pendingSolid, pendingEffect, pendingVisualization := None, None, None;
    }

    method RequestClear(stopBackground: bool)
      modifies this
      ensures Abstract() == Requested(old(Abstract()), Clear(stopBackground))
    {
      pendingClear := Some(stopBackground);
      if stopBackground {
        background := background.(effect := None);
        background := background.(visualization := None);
      }
      currentMode := Off;
    }

    method RequestSolid(color: uint32)
      modifies this
      ensures Abstract() == Requested(old(Abstract()), ShowSolid(color))
    {
      pendingSolid := Some(color);
      currentMode := ActiveSolid;
    }

    method RequestEffect(effect: Effect, durationMs: uint32)
      modifies this
      ensures Abstract() == Requested(old(Abstract()), ShowEffect(effect, durationMs))
    {
      pendingEffect := Some(Timed(effect, durationMs));
      pendingVisualization := None;
      if durationMs == 0 {
        background := Background(None, Some(effect));
      }
      currentMode := ActiveEffect;
    }

    method RequestDataVisualization(config: nat, durationMs: uint32)
      modifies this
      ensures Abstract() == Requested(old(Abstract()), ShowDataVisualization(config, durationMs))
    {
      pendingVisualization := Some(Timed(config, durationMs));
      pendingEffect := None;
      if durationMs == 0 {
        background := Background(Some(config), None);
      }
      currentMode := ActiveDataVisualization;
    }

    method SetBrightness(brightness: uint8)
      modifies this
      ensures Abstract() == Requested(old(Abstract()), Command.SetBrightness(brightness))
    {
      userTargetBrightness := brightness;
      var effective := userTargetBrightness;
      if thermalLimit < effective {
        effective := thermalLimit;
      }
      if pendingBrightness != effective || !brightnessDirty {
        pendingBrightness := effective;
        brightnessDirty := true;
      }
    }

    method SetThermalBrightnessLimit(limit: uint8)
      modifies this
      ensures Abstract() == After(old(Abstract()), SetThermalLimit(limit))
    {
      thermalLimit := limit;
      var effective := userTargetBrightness;
      if thermalLimit < effective {
        effective := thermalLimit;
      }
      if pendingBrightness != effective {
        pendingBrightness := effective;
        brightnessDirty := true;
      }
    }

    method SetRotation(rotation: uint8)
      modifies this
      ensures Abstract() == Requested(old(Abstract()), Command.SetRotation(rotation))
    {
      pendingRotation := Some(rotation);
    }

    method SetNotificationColor(color: uint32)
      modifies this
      ensures Abstract() == After(old(Abstract()), Notify(color))
    {
      if currentMode == Off || currentMode == Passive {
        if notificationColor != color {
          notificationColor := color;
          pendingSolid := Some(color);
          currentMode := Passive;
        }
      }
    }

    method ClearBackgroundEffect()
      modifies this
      ensures Abstract() == After(old(Abstract()), ForgetEffect)
    {
      background := background.(effect := None);
    }

    method ClearBackgroundDataVisualization()
      modifies this
      ensures Abstract() == After(old(Abstract()), ForgetDataVisualization)
    {
      background := background.(visualization := None);
    }

    method Poll() returns (command: Option<Command>)
      modifies this
      ensures (command, Abstract()) == Polled(old(Abstract()))
    {
      if brightnessDirty {
        brightnessDirty := false;
        return Some(Command.SetBrightness(pendingBrightness));
      }
      if pendingRotation.Some? {
        command := Some(Command.SetRotation(pendingRotation.value));
        pendingRotation := None;
        return;
      }
      if pendingClear.Some? {
        command := Some(Clear(pendingClear.value));
        pendingClear, pendingIcon, pendingText, pendingSolid := None, None, None, None;
        pendingEffect, pendingVisualization := None, None;
        return;
      }
      if pendingIcon.Some? {
        command := Some(ShowIcon(pendingIcon.value.item, pendingIcon.value.durationMs));
        pendingIcon := None;
        return;
      }
      if pendingText.Some? {
        command := Some(ShowText(pendingText.value.item.text, pendingText.value.item.color,
            pendingText.value.durationMs));
        pendingText := None;
        return;
      }
      if pendingSolid.Some? {
        command := Some(ShowSolid(pendingSolid.value));
        pendingSolid := None;
        return;
      }
      if pendingEffect.Some? {
        command := Some(ShowEffect(pendingEffect.value.item, pendingEffect.value.durationMs));
        pendingEffect := None;
        return;
      }
      if pendingVisualization.Some? {
        command := Some(ShowDataVisualization(pendingVisualization.value.item, pendingVisualization.value.durationMs));
        pendingVisualization := None;
        return;
      }
      return None;
    }
  }

  // ---- Draining ----

  function BrightnessOf(p: Pending): Option<Command> {
    if p.brightnessDirty then Some(Command.SetBrightness(p.brightness)) else None
  }

  function RotationOf(p: Pending): Option<Command> {
    if p.rotation.Some? then Some(Command.SetRotation(p.rotation.value)) else None
  }

  function IconOf(p: Pending): Option<Command> {
    if p.icon.Some? then Some(IconCommand(p.icon.value)) else None
  }

  function TextOf(p: Pending): Option<Command> {
    if p.text.Some? then Some(TextCommand(p.text.value)) else None
  }

  function SolidOf(p: Pending): Option<Command> {
    if p.solid.Some? then Some(ShowSolid(p.solid.value)) else None
  }

  function EffectOf(p: Pending): Option<Command> {
    if p.effect.Some? then Some(EffectCommand(p.effect.value)) else None
  }

  function VisualizationOf(p: Pending): Option<Command> {
    if p.visualization.Some? then Some(VisualizationCommand(p.visualization.value)) else None
  }

  function Then(first: Option<Command>, rest: seq<Command>): seq<Command> {
    if first.Some? then [first.value] + rest else rest
  }

  function ContentCommands(p: Pending): seq<Command> {
    if p.clear.Some? then [Clear(p.clear.value)]
    else Then(IconOf(p), Then(TextOf(p), Then(SolidOf(p), Then(EffectOf(p), Then(VisualizationOf(p), [])))))
  }

  /** Everything the loop gets when nothing more is requested: at most one command of each kind, by priority. */
  function Drained(p: Pending): seq<Command> {
    Then(BrightnessOf(p), Then(RotationOf(p), ContentCommands(p)))
  }

  /** One poll after the other, as long as they bring commands. */
  function PolledOut(p: Pending, polls: nat): seq<Command>
    decreases polls
  {
    if polls == 0 || Polled(p).0.None? then [] else [Polled(p).0.value] + PolledOut(Polled(p).1, polls - 1)
  }

  lemma PollTakesFirst(p: Pending)
    ensures Polled(p).0.None? ==> Drained(p) == []
    ensures Polled(p).0.Some? ==> Drained(p) == [Polled(p).0.value] + Drained(Polled(p).1)
  {
    if p.brightnessDirty || p.rotation.Some? {
      hide Then, IconOf, TextOf, SolidOf, EffectOf, VisualizationOf;
      SameContent(p, Polled(p).1);
      PollTakesHardware(p);
    } else {
      PollTakesFirstContent(p);
    }
  }

  lemma SameContent(p: Pending, q: Pending)
    requires p.clear == q.clear && p.icon == q.icon && p.text == q.text && p.solid == q.solid
    requires p.effect == q.effect && p.visualization == q.visualization
    ensures ContentCommands(p) == ContentCommands(q)
  {
    hide Then;
  }

  lemma PollTakesHardware(p: Pending)
    requires p.brightnessDirty || p.rotation.Some?
    requires ContentCommands(p) == ContentCommands(Polled(p).1)
    ensures Drained(p) == [Polled(p).0.value] + Drained(Polled(p).1)
  {
    hide ContentCommands;
  }

  lemma PollTakesFirstContent(p: Pending)
    requires !p.brightnessDirty && p.rotation.None?
    ensures Polled(p).0.None? ==> Drained(p) == []
    ensures Polled(p).0.Some? ==> Drained(p) == [Polled(p).0.value] + Drained(Polled(p).1)
  {
    NoHardware(p);
    var rest := Polled(p).1;
    assert !rest.brightnessDirty && rest.rotation.None?;
    NoHardware(rest);
    if p.clear.None? && (p.icon.Some? || p.text.Some?) {
      PollTakesNotice(p);
    } else if p.clear.None? {
      PollTakesAnimation(p);
    }
  }

  lemma NoHardware(p: Pending)
    requires !p.brightnessDirty && p.rotation.None?
    ensures Drained(p) == ContentCommands(p)
  {
    hide ContentCommands;
  }

  lemma PollTakesNotice(p: Pending)
    requires !p.brightnessDirty && p.rotation.None? && p.clear.None? && (p.icon.Some? || p.text.Some?)
    ensures ContentCommands(p) == [Polled(p).0.value] + ContentCommands(Polled(p).1)
  {
    hide SolidOf, EffectOf, VisualizationOf;
    var rest := Polled(p).1;
    assert Then(SolidOf(p), Then(EffectOf(p), Then(VisualizationOf(p), []))) ==
           Then(SolidOf(rest), Then(EffectOf(rest), Then(VisualizationOf(rest), []))) by {
      SameLowContent(p, rest);
    }
  }

  lemma SameLowContent(p: Pending, q: Pending)
    requires p.solid == q.solid && p.effect == q.effect && p.visualization == q.visualization
    ensures SolidOf(p) == SolidOf(q) && EffectOf(p) == EffectOf(q) && VisualizationOf(p) == VisualizationOf(q)
  {
  }

  lemma PollTakesAnimation(p: Pending)
    requires !p.brightnessDirty && p.rotation.None? && p.clear.None? && p.icon.None? && p.text.None?
    ensures Polled(p).0.None? ==> ContentCommands(p) == []
    ensures Polled(p).0.Some? ==> ContentCommands(p) == [Polled(p).0.value] + ContentCommands(Polled(p).1)
  {
    hide EffectCommand, VisualizationCommand;
  }

  /** Eight polls empty every backlog, in the order of priority. */
  lemma {:induction false} PollsDrain(p: Pending, polls: nat)
    requires polls >= |Drained(p)|
    ensures PolledOut(p, polls) == Drained(p)
    ensures |Drained(p)| <= 7
    decreases polls
  {
    PollTakesFirst(p);
    if polls > 0 && Polled(p).0.Some? {
      PollsDrain(Polled(p).1, polls - 1);
    }
  }

  predicate HasContent(c: Command) {
    c.ShowIcon? || c.ShowText? || c.ShowSolid? || c.ShowEffect? || c.ShowDataVisualization?
  }

  /** The command a request arrives as. */
  function Arriving(c: Command): Command {
    if c.ShowText? then c.(text := Truncated(c.text)) else c
  }

  function Last(commands: seq<Command>): Option<Command> {
    if commands == [] then None else Some(commands[|commands| - 1])
  }

  lemma LastOfThen(first: Option<Command>, rest: seq<Command>)
    ensures Last(Then(first, rest)) == if rest == [] then first else Last(rest)
  {
  }

  /** The content command of lowest priority, which is polled last. */
  function LastContent(p: Pending): Option<Command> {
    if p.clear.Some? then Some(Clear(p.clear.value))
    else if p.visualization.Some? then VisualizationOf(p)
    else if p.effect.Some? then EffectOf(p)
    else if p.solid.Some? then SolidOf(p)
    else if p.text.Some? then TextOf(p)
    else IconOf(p)
  }

  lemma LastContentIsLast(p: Pending)
    ensures Last(ContentCommands(p)) == LastContent(p)
    ensures LastContent(p).Some? ==> Last(Drained(p)) == LastContent(p)
  {
    hide Last, Then;
    LastOfNothing();
    if p.clear.None? {
      var low := Then(VisualizationOf(p), []);
      var upToEffect := Then(EffectOf(p), low);
      var upToSolid := Then(SolidOf(p), upToEffect);
      var upToText := Then(TextOf(p), upToSolid);
      LastOfThen(VisualizationOf(p), []);
      LastOfThen(EffectOf(p), low);
      LastOfThen(SolidOf(p), upToEffect);
      LastOfThen(TextOf(p), upToSolid);
      LastOfThen(IconOf(p), upToText);
    } else {
      LastOfOne(Clear(p.clear.value));
    }
    LastOfThen(RotationOf(p), ContentCommands(p));
    LastOfThen(BrightnessOf(p), Then(RotationOf(p), ContentCommands(p)));
  }

  lemma LastOfNothing()
    ensures Last([]) == None
    ensures forall commands :: Last(commands) == None ==> commands == []
  {
  }

  lemma LastOfOne(c: Command)
    ensures Last([c]) == Some(c)
  {
  }

  /**
    The latest request is the last command that is polled exactly when no clear is pending and, for
    a solid colour, no effect or visualisation is.
  */
  lemma LatestRequestWinsIff(p: Pending, c: Command)
    requires HasContent(c)
    ensures Last(Drained(Requested(p, c))) == Some(Arriving(c)) <==>
            p.clear.None? && (c.ShowSolid? ==> p.effect.None? && p.visualization.None?)
  {
    hide Drained, ContentCommands, Last;
    LastContentIsLast(Requested(p, c));
  }

  lemma InThen(c: Command, first: Option<Command>, rest: seq<Command>)
    ensures c in Then(first, rest) <==> first == Some(c) || c in rest
  {
    if first.Some? {
      assert Then(first, rest)[0] == first.value;
      assert Then(first, rest)[1..] == rest;
    }
  }

  /** A request for content reaches the loop exactly when no clear is pending that it came too late for. */
  lemma RequestArrivesIff(p: Pending, c: Command)
    requires HasContent(c)
    ensures Arriving(c) in Drained(Requested(p, c)) <==> p.clear.None?
  {
    hide Then;
    var q, sent := Requested(p, c), Arriving(c);
    InThen(sent, BrightnessOf(q), Then(RotationOf(q), ContentCommands(q)));
    InThen(sent, RotationOf(q), ContentCommands(q));
    if p.clear.None? {
      ContentArrives(q, sent);
    } else {
      assert [Clear(p.clear.value)][0] != sent;
    }
  }

  lemma ContentArrives(q: Pending, c: Command)
    requires q.clear.None?
    ensures c in ContentCommands(q) <==>
            Some(c) == IconOf(q) || Some(c) == TextOf(q) || Some(c) == SolidOf(q) || Some(c) == EffectOf(q)
                || Some(c) == VisualizationOf(q)
  {
    hide Then;
    var low := Then(VisualizationOf(q), []);
    var upToEffect := Then(EffectOf(q), low);
    var upToSolid := Then(SolidOf(q), upToEffect);
    InThen(c, VisualizationOf(q), []);
    InThen(c, EffectOf(q), low);
    InThen(c, SolidOf(q), upToEffect);
    InThen(c, TextOf(q), upToSolid);
    InThen(c, IconOf(q), Then(TextOf(q), upToSolid));
  }

  // ---- What every run of requests and polls keeps ----

  datatype Action = Ask(request: Request) | Take

  function Run(p: Pending, actions: seq<Action>): Pending {
    if actions == [] then p
    else
      var before := Run(p, actions[..|actions| - 1]);
      match actions[|actions| - 1]
      case Ask(request) => After(before, request)
      case Take => Polled(before).1
  }

  predicate Kept(p: Pending) {
    (p.background.visualization.None? || p.background.effect.None?)
  }

  /** No more than one background is remembered, so the order of preference among them never matters. */
  lemma {:induction false} OneBackground(actions: seq<Action>)
    ensures Kept(Run(INITIAL, actions))
  {
    if actions != [] {
      var before := Run(INITIAL, actions[..|actions| - 1]);
      OneBackground(actions[..|actions| - 1]);
      match actions[|actions| - 1]
      case Ask(request) => RequestKeepsOneBackground(before, request);
      case Take => PollKeepsOneBackground(before);
    }
  }

  lemma RequestKeepsOneBackground(p: Pending, r: Request)
    requires Kept(p)
    ensures Kept(After(p, r))
  {
  }

  lemma PollKeepsOneBackground(p: Pending)
    requires Kept(p)
    ensures Kept(Polled(p).1)
  {
  }

  predicate Limited(p: Pending) {
    p.brightness == Effective(p) && p.brightness <= p.thermalLimit
  }

  lemma RequestKeepsLimited(p: Pending, r: Request)
    requires Limited(p)
    ensures Limited(After(p, r))
  {
    hide Truncated;
  }

  lemma PollKeepsLimited(p: Pending)
    requires Limited(p)
    ensures Limited(Polled(p).1)
  {
  }

  lemma BrightnessRequestLimits(p: Pending, value: uint8)
    ensures Limited(Requested(p, Command.SetBrightness(value)))
  {
  }

  /** From the first brightness request on, the brightness last sent or pending is the requested one under the limit. */
  lemma {:induction false} BrightnessIsLimited(p: Pending, value: uint8, actions: seq<Action>)
    ensures Limited(Run(Requested(p, Command.SetBrightness(value)), actions))
  {
    hide After, Polled, Limited, Requested;
    if actions == [] {
      BrightnessRequestLimits(p, value);
    } else {
      var before := Run(Requested(p, Command.SetBrightness(value)), actions[..|actions| - 1]);
      BrightnessIsLimited(p, value, actions[..|actions| - 1]);
      match actions[|actions| - 1]
      case Ask(request) => RequestKeepsLimited(before, request);
      case Take => PollKeepsLimited(before);
    }
  }

  /** A requested brightness is the next thing polled, unless the limit is lower. */
  lemma BrightnessIsPolled(p: Pending, value: uint8)
    ensures Polled(Requested(p, Command.SetBrightness(value))).0 ==
            Some(Command.SetBrightness(if value <= p.thermalLimit then value else p.thermalLimit))
  {
  }

  /** A limit that changes the brightness makes it the next thing polled. */
  lemma LimitIsPolled(p: Pending, limit: uint8)
    ensures var effective := if p.userBrightness <= limit then p.userBrightness else limit;
            p.brightness != effective ==>
              Polled(After(p, SetThermalLimit(limit))).0 == Some(Command.SetBrightness(effective))
  {
  }

  /**
    What a request drops: an icon every other content, a text all but an icon, and an effect and a visualisation
    each other; a colour and a clear drop nothing.
  */
  lemma RequestDrops(p: Pending, c: Command)
    ensures var q := Requested(p, c);
            && (q.icon == p.icon || c.ShowIcon?) && (q.clear == p.clear || c.Clear?)
            && (q.rotation == p.rotation || c.SetRotation?)
            && (q.text == if c.ShowIcon? then None else if c.ShowText? then q.text else p.text)
            && (q.solid == if c.ShowIcon? || c.ShowText? then None else if c.ShowSolid? then Some(c.color) else p.solid)
            && (!c.ShowEffect? ==>
                  q.effect == if c.ShowIcon? || c.ShowText? || c.ShowDataVisualization? then None else p.effect)
            && (!c.ShowDataVisualization? ==>
                  q.visualization == if c.ShowIcon? || c.ShowText? || c.ShowEffect? then None else p.visualization)
  {
    hide Truncated;
  }

  // ---- Notifications ----

  /** No content has been requested since the last clear; a notification is none. */
  predicate Idle(actions: seq<Action>) {
    if actions == [] then true
    else
      match actions[|actions| - 1]
      case Ask(Show(c)) => if c.Clear? then true else if HasContent(c) then false else Idle(actions[..|actions| - 1])
      case _ => Idle(actions[..|actions| - 1])
  }

  /** The colour of the last notification that was accepted. */
  function LastNotified(actions: seq<Action>): uint32 {
    if actions == [] then 0
    else
      var before := actions[..|actions| - 1];
      match actions[|actions| - 1]
      case Ask(Notify(color)) => if Idle(before) then color else LastNotified(before)
      case _ => LastNotified(before)
  }

  lemma {:induction false} ModeFollowsRequests(actions: seq<Action>)
    ensures Run(INITIAL, actions).mode in {Off, Passive} <==> Idle(actions)
    ensures Run(INITIAL, actions).notificationColor == LastNotified(actions)
  {
    if actions != [] {
      hide Requested, Polled;
      var before := actions[..|actions| - 1];
      ModeFollowsRequests(before);
      match actions[|actions| - 1]
      case Take => ModeAfterPoll(Run(INITIAL, before));
      case Ask(request) =>
        if request.Show? {
          ModeAfterRequest(Run(INITIAL, before), request.command);
        }
    }
  }

  lemma ModeAfterPoll(p: Pending)
    ensures Polled(p).1.mode == p.mode && Polled(p).1.notificationColor == p.notificationColor
  {
  }

  lemma ModeAfterRequest(p: Pending, c: Command)
    ensures Requested(p, c).notificationColor == p.notificationColor
    ensures Requested(p, c).mode in {Off, Passive} <==> c.Clear? || (!HasContent(c) && p.mode in {Off, Passive})
  {
    hide Truncated;
  }

  /** A notification is shown exactly when nothing active is, and it is a new colour. */
  lemma NotificationShowsIff(actions: seq<Action>, color: uint32)
    ensures var p := Run(INITIAL, actions);
            After(p, Notify(color)) ==
            if Idle(actions) && LastNotified(actions) != color
            then p.(notificationColor := color, solid := Some(color), mode := Passive)
            else p
  {
    ModeFollowsRequests(actions);
  }
}
