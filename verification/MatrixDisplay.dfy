/**
  What the display loop shows: commands, the guard that skips redrawing the active icon, timed
  items that clear themselves on a wrapping clock, and the background restored in their place.
*/
module MatrixDisplay {
  import opened Words
  import opened Options

  datatype IconType = NoIcon | Info | Warning | Critical

  /** Effect parameters, whichever engine runs them. */
  datatype Effect = Effect(native3D: bool, mode: uint8, speed: uint32, colors: seq<uint32>)

  /** What the panel shows; an icon has its custom bitmap if there is one. */
  datatype Content =
    | Blank
    | Icon(icon: IconType, custom: Option<seq<uint32>>)
    | Text(text: string, color: uint32)
    | Solid(color: uint32)
    | Running(effect: Effect)
    | Visualization(config: nat)

  function Existing(bitmap: seq<uint32>): Option<seq<uint32>> {
    if forall i :: 0 <= i < |bitmap| ==> bitmap[i] == 0 then None else Some(bitmap)
  }

  /** Bitmaps of the three icons; one that is all zero counts as missing. */
  datatype Icons = Icons(info: seq<uint32>, warning: seq<uint32>, critical: seq<uint32>) {
    function BitmapOf(icon: IconType): seq<uint32>
      requires icon != NoIcon
    {
      match icon
      case Info => info
      case Warning => warning
      case Critical => critical
    }

    function CustomOf(icon: IconType): Option<seq<uint32>> {
      if icon == NoIcon then None else Existing(BitmapOf(icon))
    }

    function With(icon: IconType, bitmap: seq<uint32>): Icons {
      match icon
      case NoIcon => this
      case Info => this.(info := bitmap)
      case Warning => this.(warning := bitmap)
      case Critical => this.(critical := bitmap)
    }
  }

  /** What a loop may find remembered as the background. */
  datatype Background = Background(visualization: Option<nat>, effect: Option<Effect>)

  datatype Command =
    | SetBrightness(value: uint8)
    | SetRotation(rotation: uint8)
    | Clear(stopBackground: bool)
    | ShowIcon(icon: IconType, durationMs: uint32)
    | ShowText(text: string, color: uint32, durationMs: uint32)
    | ShowSolid(color: uint32)
    | ShowEffect(effect: Effect, durationMs: uint32)
    | ShowDataVisualization(config: nat, durationMs: uint32)

  /** A pass of the loop, or a change between passes to the bitmaps or to the remembered background. */
  datatype Event =
    | Loop(now: uint32, command: Option<Command>)
    | SetCustomIcon(icon: IconType, bitmap: seq<uint32>)
    | Remember(background: Background)

  datatype State = State(
    muted: bool,
    content: Content,
    activeIcon: IconType,
    startMs: uint32,
    durationMs: uint32,
    autoClearing: bool,
    icons: Icons,
    background: Background)

  // ---- The specification of a pass ----

  /** A muted renderer blanks instead of showing anything. */
  function Shown(s: State, content: Content): State {
    s.(content := if s.muted then Blank else content)
  }

  /** The visualisation before the effect before nothing. */
  function Restored(b: Background): Content {
    match b.visualization
    case Some(config) => Visualization(config)
    case None => if b.effect.Some? then Running(b.effect.value) else Blank
  }

  function Timed(s: State, now: uint32, durationMs: uint32): State {
    if durationMs > 0 then s.(startMs := now, durationMs := durationMs, autoClearing := true)
    else s.(autoClearing := false)
  }

  function IconContent(s: State, icon: IconType): Content {
    if icon == NoIcon then Blank else Icon(icon, s.icons.CustomOf(icon))
  }

  /** With the guard, an icon that is already active is not drawn again. */
  function Commanded(s: State, now: uint32, command: Command, guarded: bool): State {
    match command
    case SetBrightness(value) => s.(muted := value == 0, content := if value == 0 then Blank else s.content)
    case SetRotation(_) => s
    case Clear(stopBackground) =>
      Shown(s, if stopBackground then Blank else Restored(s.background)).(autoClearing := false, activeIcon := NoIcon)
    case ShowIcon(icon, durationMs) =>
      var shown := if guarded && icon == s.activeIcon then s
                   else Shown(s, IconContent(s, icon)).(activeIcon := icon);
      Timed(shown, now, durationMs)
    case ShowText(text, color, durationMs) => Timed(Shown(s, Text(text, color)).(activeIcon := NoIcon), now, durationMs)
    case ShowSolid(color) => Shown(s, Solid(color)).(autoClearing := false, activeIcon := NoIcon)
    case ShowEffect(effect, durationMs) => Timed(Shown(s, Running(effect)).(activeIcon := NoIcon), now, durationMs)
    case ShowDataVisualization(config, durationMs) =>
      Timed(Shown(s, Visualization(config)).(activeIcon := NoIcon), now, durationMs)
  }

  predicate Due(s: State, now: uint32) {
    s.autoClearing && s.durationMs > 0 && ToUint32(now - s.startMs) >= s.durationMs
  }

  function Expired(s: State, now: uint32): State {
    if Due(s, now) then Shown(s, Restored(s.background)).(autoClearing := false, activeIcon := NoIcon) else s
  }

  function AfterCommand(s: State, e: Event, guarded: bool): State
    requires e.Loop?
  {
    if e.command.Some? then Commanded(s, e.now, e.command.value, guarded) else s
  }

  function Step(s: State, e: Event, guarded: bool): State {
    match e
    case Loop(now, _) => Expired(AfterCommand(s, e, guarded), now)
    case SetCustomIcon(icon, bitmap) =>
      s.(icons := s.icons.With(icon, bitmap), activeIcon := if s.activeIcon == icon then NoIcon else s.activeIcon)
    case Remember(background) => s.(background := background)
  }

  function Run(s: State, events: seq<Event>, guarded: bool): State {
    if events == [] then s else Step(Run(s, events[..|events| - 1], guarded), events[|events| - 1], guarded)
  }

  // ---- The loop ----

  class MatrixService {
    var muted: bool
    var content: Content
    var activeIcon: IconType
    var displayStartMs: uint32
    var displayDurationMs: uint32
    var autoClearing: bool
    var icons: Icons
    var background: Background

    ghost function Abstract(): State
      reads this
    {
      State(muted, content, activeIcon, displayStartMs, displayDurationMs, autoClearing, icons, background)
    }

    constructor (icons: Icons)
      ensures Abstract() == State(false, Blank, NoIcon, 0, 0, false, icons, Background(None, None))
    {
      muted, content, activeIcon := false, Blank, NoIcon;
      displayStartMs, displayDurationMs, autoClearing := 0, 0, false;
      this.icons, background := icons, Background(None, None);
    }

    /** Blanks the panel, or shows the given content unless muted. */
    method Render(c: Content)
      modifies this`content
      ensures Abstract() == Shown(old(Abstract()), c)
    {
      if muted {
        content := Blank;
        return;
      }
      content := c;
    }

    method RenderBrightness(value: uint8)
      modifies this`muted, this`content
      ensures Abstract() == old(Abstract()).(muted := value == 0, content := if value == 0 then Blank else old(content))
    {
      muted := value == 0;
      if muted {
        content := Blank;
      }
    }

    method RestoreBackground()
      modifies this`content
      ensures Abstract() == Shown(old(Abstract()), Restored(background))
    {
      if background.visualization.Some? {
        Render(Visualization(background.visualization.value));
      } else if background.effect.Some? {
        Render(Running(background.effect.value));
      } else {
        Render(Blank);
      }
    }

    method StartTimer(now: uint32, durationMs: uint32)
      modifies this`displayStartMs, this`displayDurationMs, this`autoClearing
      ensures Abstract() == Timed(old(Abstract()), now, durationMs)
    {
      if durationMs > 0 {
        displayStartMs, displayDurationMs, autoClearing := now, durationMs, true;
      } else {
        autoClearing := false;
      }
    }

    method Execute(now: uint32, command: Command)
      modifies this
      ensures Abstract() == Commanded(old(Abstract()), now, command, true)
    {
      match command
      case SetBrightness(value) =>
        RenderBrightness(value);
      case SetRotation(_) =>
      case Clear(stopBackground) =>
        autoClearing := false;
        activeIcon := NoIcon;
        if stopBackground {
          Render(Blank);
        } else {
          RestoreBackground();
        }
      case ShowIcon(icon, durationMs) =>
        if icon != activeIcon {
          Render(if icon == NoIcon then Blank else Icon(icon, icons.CustomOf(icon)));
          activeIcon := icon;
        }
        StartTimer(now, durationMs);
      case ShowText(text, color, durationMs) =>
        activeIcon := NoIcon;
        Render(Text(text, color));
        StartTimer(now, durationMs);
      case ShowSolid(color) =>
        autoClearing := false;
        activeIcon := NoIcon;
        Render(Solid(color));
      case ShowEffect(effect, durationMs) =>
        activeIcon := NoIcon;
        Render(Running(effect));
        StartTimer(now, durationMs);
      case ShowDataVisualization(config, durationMs) =>
        activeIcon := NoIcon;
        Render(Visualization(config));
        StartTimer(now, durationMs);
    }

    method Loop(now: uint32, command: Option<Command>)
      modifies this
      ensures Abstract() == Step(old(Abstract()), Event.Loop(now, command), true)
    {
      if command.Some? {
        Execute(now, command.value);
      }
      if autoClearing && displayDurationMs > 0 {
        if ToUint32(now - displayStartMs) >= displayDurationMs {
          autoClearing := false;
          activeIcon := NoIcon;
          RestoreBackground();
        }
      }
    }

    /** New bitmap data; the guard must not hide it the next time the icon is shown. */
    method SetCustomIcon(icon: IconType, bitmap: seq<uint32>)
      modifies this`icons, this`activeIcon
      ensures Abstract() == Step(old(Abstract()), Event.SetCustomIcon(icon, bitmap), true)
    {
      icons := icons.With(icon, bitmap);
      if activeIcon == icon {
        activeIcon := NoIcon;
      }
    }
  }

  // ---- The guard against redrawing ----

  /** A muted panel is blank, and an active icon is on the panel unless the panel went dark since. */
  ghost predicate Consistent(s: State) {
    && (s.muted ==> s.content == Blank)
    && (s.activeIcon != NoIcon ==> s.content == IconContent(s, s.activeIcon) || s.content == Blank)
  }

  /** Commands that put something on the panel without being an icon make no icon active. */
  lemma CommandKeepsConsistent(s: State, now: uint32, c: Command, guarded: bool)
    requires Consistent(s)
    ensures Consistent(Commanded(s, now, c, guarded))
  {
    hide Restored, IconContent;
    match c
    case SetBrightness(_) =>
    case SetRotation(_) =>
    case Clear(_) =>
    case ShowIcon(icon, durationMs) =>
      IconKeepsConsistent(s, now, icon, durationMs, guarded);
    case ShowText(_, _, _) =>
    case ShowSolid(_) =>
    case ShowEffect(_, _) =>
    case ShowDataVisualization(_, _) =>
  }

  lemma IconKeepsConsistent(s: State, now: uint32, icon: IconType, durationMs: uint32, guarded: bool)
    requires Consistent(s)
    ensures Consistent(Commanded(s, now, ShowIcon(icon, durationMs), guarded))
  {
    hide Icons.CustomOf;
    var shown := Shown(s, IconContent(s, icon)).(activeIcon := icon);
    assert Consistent(shown);
  }

  lemma ExpiryKeepsConsistent(s: State, now: uint32)
    requires Consistent(s)
    ensures Consistent(Expired(s, now))
  {
    hide Restored, IconContent, Due;
  }

  lemma EditKeepsConsistent(s: State, icon: IconType, bitmap: seq<uint32>, guarded: bool)
    requires Consistent(s)
    ensures Consistent(Step(s, Event.SetCustomIcon(icon, bitmap), guarded))
  {
    hide Existing;
  }

  lemma StepKeepsConsistent(s: State, e: Event, guarded: bool)
    requires Consistent(s)
    ensures Consistent(Step(s, e, guarded))
  {
    hide Commanded, Expired, IconContent;
    match e
    case Loop(now, command) =>
      if command.Some? {
        CommandKeepsConsistent(s, now, command.value, guarded);
      }
      ExpiryKeepsConsistent(AfterCommand(s, e, guarded), now);
    case SetCustomIcon(icon, bitmap) =>
      EditKeepsConsistent(s, icon, bitmap, guarded);
    case Remember(background) =>
      BackgroundIsNoContent(s, background);
  }

  /** An edited icon shows its new bitmap the next time it is asked for, and none if that is all zero. */
  lemma EditShowsNext(s: State, icon: IconType, bitmap: seq<uint32>, now: uint32, durationMs: uint32)
    requires icon != NoIcon && !s.muted
    ensures var edited := Step(s, Event.SetCustomIcon(icon, bitmap), true);
            var shown := Commanded(edited, now, ShowIcon(icon, durationMs), true).content;
            && shown == Icon(icon, if exists i :: 0 <= i < |bitmap| && bitmap[i] != 0 then Some(bitmap) else None)
            && (forall other :: other != NoIcon && other != icon ==>
                  edited.icons.BitmapOf(other) == s.icons.BitmapOf(other))
  {
  }

  lemma BackgroundIsNoContent(s: State, background: Background)
    requires Consistent(s)
    ensures Consistent(s.(background := background))
  {
  }

  lemma {:induction false} RunKeepsConsistent(s: State, events: seq<Event>, guarded: bool)
    requires Consistent(s)
    ensures Consistent(Run(s, events, guarded))
  {
    if events != [] {
      RunKeepsConsistent(s, events[..|events| - 1], guarded);
      StepKeepsConsistent(Run(s, events[..|events| - 1], guarded), events[|events| - 1], guarded);
    }
  }

  /**
    The guard skips an icon the panel does not show: the active one after the panel went dark and
    came back, or no icon at all over something else.
  */
  predicate WronglySkipped(s: State, e: Event) {
    && e.Loop? && e.command.Some? && e.command.value.ShowIcon?
    && e.command.value.icon == s.activeIcon
    && !s.muted
    && (s.activeIcon == NoIcon <==> s.content != Blank)
  }

  lemma GuardIsHarmlessIff(s: State, e: Event)
    requires Consistent(s)
    ensures Step(s, e, true) == Step(s, e, false) <==> !WronglySkipped(s, e)
  {
  }

  ghost predicate Agree(s: State, events: seq<Event>) {
    forall n :: 0 <= n <= |events| ==> Run(s, events[..n], true) == Run(s, events[..n], false)
  }

  predicate SkippedAt(s: State, events: seq<Event>, n: nat)
    requires n < |events|
  {
    WronglySkipped(Run(s, events[..n], true), events[n])
  }

  /** The guarded display equals the unguarded one throughout a run exactly when no icon is wrongly skipped. */
  lemma {:induction false} GuardedRunIff(s: State, events: seq<Event>)
    requires Consistent(s)
    ensures Agree(s, events) <==> forall n: nat :: n < |events| ==> !SkippedAt(s, events, n)
  {
    hide Step, WronglySkipped, Consistent;
    if events == [] {
      assert events[..0] == [];
    } else {
      var n := |events| - 1;
      var before := events[..n];
      GuardedRunIff(s, before);
      forall k: nat | k <= n ensures before[..k] == events[..k] {
      }
      forall k: nat | k < n ensures SkippedAt(s, before, k) == SkippedAt(s, events, k) {
        assert before[..k] == events[..k];
      }
      RunKeepsConsistent(s, before, true);
      GuardIsHarmlessIff(Run(s, before, true), events[n]);
      assert events[..n + 1] == events && before[..n] == before;
      assert Agree(s, events) <==> Agree(s, before) && Run(s, events, true) == Run(s, events, false);
      assert SkippedAt(s, events, n) == WronglySkipped(Run(s, before, true), events[n]);
    }
  }

  /** Brightness is never turned to 0 and only real icons are asked for. */
  predicate Ordinary(e: Event) {
    e.Loop? && e.command.Some? ==>
      && (e.command.value.SetBrightness? ==> e.command.value.value != 0)
      && (e.command.value.ShowIcon? ==> e.command.value.icon != NoIcon)
  }

  ghost predicate Lit(s: State) {
    !s.muted && (s.activeIcon != NoIcon ==> s.content == IconContent(s, s.activeIcon))
  }

  lemma {:induction false} OrdinaryRunStaysLit(s: State, events: seq<Event>)
    requires Lit(s) && forall i :: 0 <= i < |events| ==> Ordinary(events[i])
    ensures Lit(Run(s, events, true))
  {
    if events != [] {
      var n := |events| - 1;
      OrdinaryRunStaysLit(s, events[..n]);
      OrdinaryStepStaysLit(Run(s, events[..n], true), events[n]);
    }
  }

  lemma OrdinaryStepStaysLit(s: State, e: Event)
    requires Lit(s) && Ordinary(e)
    ensures Lit(Step(s, e, true))
  {
    hide Existing, Restored, Due;
  }

  /** In every run that never goes dark, skipping redraws is invisible, whatever icons are edited. */
  lemma OrdinaryRunsAgree(s: State, events: seq<Event>)
    requires Lit(s) && forall i :: 0 <= i < |events| ==> Ordinary(events[i])
    ensures Agree(s, events)
  {
    forall n: nat | n < |events| ensures !SkippedAt(s, events, n) {
      OrdinaryRunStaysLit(s, events[..n]);
      assert Ordinary(events[n]);
    }
    GuardedRunIff(s, events);
  }

  /**
    An icon, brightness 0 and back, and the icon again: the guard leaves the panel dark, where
    without it the icon would be shown.
  */
  lemma GuardLeavesPanelDark(icons: Icons, background: Background) returns (events: seq<Event>)
    ensures var start := State(false, Blank, NoIcon, 0, 0, false, icons, background);
            && Consistent(start)
            && Run(start, events, true).content == Blank && !Run(start, events, true).muted
            && Run(start, events, false).content == Icon(Info, icons.CustomOf(Info))
  {
    hide Icons.CustomOf;
    var show := Loop(0, Some(ShowIcon(Info, 0)));
    var dark, back := Loop(0, Some(SetBrightness(0))), Loop(0, Some(SetBrightness(50)));
    var start := State(false, Blank, NoIcon, 0, 0, false, icons, background);
    events := [show, dark, back, show];
    forall guarded: bool
      ensures Run(start, events, guarded) ==
              Step(Step(Step(Step(start, show, guarded), dark, guarded), back, guarded), show, guarded)
    {
      assert events == [] + [show] + [dark] + [back] + [show];
      RunOfOneMore(start, [] + [show] + [dark] + [back], show, guarded);
      RunOfOneMore(start, [] + [show] + [dark], back, guarded);
      RunOfOneMore(start, [] + [show], dark, guarded);
      RunOfOneMore(start, [], show, guarded);
    }
  }

  lemma RunOfOneMore(s: State, events: seq<Event>, e: Event, guarded: bool)
    ensures Run(s, events + [e], guarded) == Step(Run(s, events, guarded), e, guarded)
  {
    assert (events + [e])[..|events|] == events;
  }

  // ---- Timed items ----

  /** Commands that put something else on the panel, or take it off. */
  predicate Supersedes(e: Event) {
    e.Loop? && e.command.Some? && !e.command.value.SetBrightness? && !e.command.value.SetRotation?
  }

  /** The duration a superseding command asks for; 0 means until further notice. */
  function DurationOf(c: Command): uint32 {
    match c
    case ShowIcon(_, durationMs) => durationMs
    case ShowText(_, _, durationMs) => durationMs
    case ShowEffect(_, durationMs) => durationMs
    case ShowDataVisualization(_, durationMs) => durationMs
    case _ => 0
  }

  /** The loop clears the panel by itself in this pass. */
  predicate Fires(s: State, e: Event, guarded: bool) {
    e.Loop? && Due(AfterCommand(s, e, guarded), e.now)
  }

  predicate PassAfter(e: Event, now: uint32, durationMs: uint32) {
    e.Loop? && ToUint32(e.now - now) >= durationMs
  }

  predicate SomePassAfter(events: seq<Event>, now: uint32, durationMs: uint32) {
    exists k :: 0 <= k < |events| && PassAfter(events[k], now, durationMs)
  }

  /** A pass with a superseding command starts a timer or stops the one there was, and never fires itself. */
  lemma SupersedingStarts(s: State, e: Event, guarded: bool)
    requires Supersedes(e)
    ensures !Fires(s, e, guarded)
    ensures var d, next := DurationOf(e.command.value), Step(s, e, guarded);
            next.autoClearing == (d > 0) && (d > 0 ==> next.startMs == e.now && next.durationMs == d)
  {
  }

  lemma OneMorePass(events: seq<Event>, now: uint32, durationMs: uint32)
    requires events != []
    ensures SomePassAfter(events, now, durationMs) <==>
            SomePassAfter(events[..|events| - 1], now, durationMs) || PassAfter(events[|events| - 1], now, durationMs)
  {
    var n := |events| - 1;
    var before := events[..n];
    if SomePassAfter(before, now, durationMs) {
      var k :| 0 <= k < n && PassAfter(before[k], now, durationMs);
      assert PassAfter(events[k], now, durationMs);
    }
    if SomePassAfter(events, now, durationMs) && !PassAfter(events[n], now, durationMs) {
      var k :| 0 <= k < |events| && PassAfter(events[k], now, durationMs);
      assert PassAfter(before[k], now, durationMs);
    }
  }

  /** A pass without a superseding command only ever stops a timer, when it is due. */
  lemma TimerStep(s: State, e: Event, guarded: bool)
    requires !Supersedes(e)
    ensures var next := Step(s, e, guarded);
            && next.startMs == s.startMs && next.durationMs == s.durationMs
            && next.autoClearing == (s.autoClearing && !Fires(s, e, guarded))
            && (Fires(s, e, guarded) <==> s.autoClearing && s.durationMs > 0 && PassAfter(e, s.startMs, s.durationMs))
  {
  }

  /** Between superseding commands a timer runs until the first pass that is late enough. */
  lemma {:induction false} TimerUntilDue(s: State, events: seq<Event>, guarded: bool)
    requires s.autoClearing && s.durationMs > 0
    requires forall i :: 0 <= i < |events| ==> !Supersedes(events[i])
    ensures var last := Run(s, events, guarded);
            && last.autoClearing == !SomePassAfter(events, s.startMs, s.durationMs)
            && last.startMs == s.startMs && last.durationMs == s.durationMs
  {
    hide Step, Fires, PassAfter, Supersedes, SomePassAfter;
    if events == [] {
      NoPassYet(s.startMs, s.durationMs);
    } else {
      var n := |events| - 1;
      TimerUntilDue(s, events[..n], guarded);
      TimerStep(Run(s, events[..n], guarded), events[n], guarded);
      OneMorePass(events, s.startMs, s.durationMs);
    }
  }

  lemma NoPassYet(now: uint32, durationMs: uint32)
    ensures !SomePassAfter([], now, durationMs)
  {
  }

  /**
    A timed item that nothing supersedes is cleared exactly once: in the first pass that finds at
    least its duration on the clock. Then the background, or nothing, is on the panel.
  */
  lemma TimedItemClearsOnce(s: State, show: Event, events: seq<Event>, e: Event, guarded: bool)
    requires Supersedes(show) && DurationOf(show.command.value) > 0
    requires !Supersedes(e) && forall i :: 0 <= i < |events| ==> !Supersedes(events[i])
    ensures var d, before := DurationOf(show.command.value), Run(Step(s, show, guarded), events, guarded);
            && (Fires(before, e, guarded) <==> PassAfter(e, show.now, d) && !SomePassAfter(events, show.now, d))
            && (Fires(before, e, guarded) ==>
                  var after := Step(before, e, guarded);
                  after.content == (if after.muted then Blank else Restored(after.background))
                      && after.activeIcon == NoIcon)
  {
    SupersedingStarts(s, show, guarded);
    TimerUntilDue(Step(s, show, guarded), events, guarded);
    TimerStep(Run(Step(s, show, guarded), events, guarded), e, guarded);
  }

  /** An item without a duration stays until something supersedes it. */
  lemma {:induction false} UntimedItemStays(s: State, show: Event, events: seq<Event>, guarded: bool)
    requires Supersedes(show) && DurationOf(show.command.value) == 0
    requires forall i :: 0 <= i < |events| ==> !Supersedes(events[i])
    ensures !Run(Step(s, show, guarded), events, guarded).autoClearing
    ensures forall e :: !Supersedes(e) ==> !Fires(Run(Step(s, show, guarded), events, guarded), e, guarded)
  {
    SupersedingStarts(s, show, guarded);
    if events != [] {
      assert !Supersedes(events[|events| - 1]);
      UntimedItemStays(s, show, events[..|events| - 1], guarded);
    }
  }

  /**
    On the true clock, of which the loop sees the low 32 bits: a pass never finds a duration on the
    clock early, and finds it whenever it has passed and the item is less than 2^32 ms old.
  */
  lemma NeverEarly(shownAt: nat, t: nat, command: Option<Command>, durationMs: uint32)
    requires shownAt <= t
    ensures var late := PassAfter(Loop(Clock(t), command), Clock(shownAt), durationMs);
            && (late <==> Clock(t - shownAt) >= durationMs)
            && (late ==> t - shownAt >= durationMs)
            && (t - shownAt < 0x1_0000_0000 ==> (late <==> t - shownAt >= durationMs))
  {
    ClockDifference(shownAt, t);
  }

  /** A pass at a true time. */
  datatype Pass = Pass(t: nat, command: Option<Command>)

  function EventOf(p: Pass): Event {
    Loop(Clock(p.t), p.command)
  }

  function EventsOf(passes: seq<Pass>): (events: seq<Event>)
    ensures |events| == |passes|
  {
    seq(|passes|, i requires 0 <= i < |passes| => EventOf(passes[i]))
  }

  /** Passes in the order of time, no two successive ones further apart than gap, and nothing shown after the first. */
  ghost predicate Uninterrupted(passes: seq<Pass>, gap: nat) {
    forall k :: 0 < k < |passes| ==>
      passes[k - 1].t <= passes[k].t <= passes[k - 1].t + gap && !Supersedes(EventOf(passes[k]))
  }

  lemma {:induction false} TimesIncrease(passes: seq<Pass>, gap: nat, i: nat, j: nat)
    requires Uninterrupted(passes, gap) && i <= j < |passes|
    ensures passes[i].t <= passes[j].t
  {
    if i < j {
      TimesIncrease(passes, gap, i, j - 1);
    }
  }

  /** The first pass at least d after the first of all, which sees as much on its clock. */
  lemma {:induction false} FirstLatePass(passes: seq<Pass>, gap: nat, d: uint32, j: nat) returns (k: nat)
    requires Uninterrupted(passes, gap) && j < |passes| && 0 < d && d + gap <= 0x1_0000_0000
    requires passes[j].t - passes[0].t >= d
    ensures 0 < k <= j && PassAfter(EventOf(passes[k]), Clock(passes[0].t), d)
  {
    TimesIncrease(passes, gap, 0, j - 1);
    if passes[j - 1].t - passes[0].t >= d {
      k := FirstLatePass(passes, gap, d, j - 1);
    } else {
      k := j;
      NeverEarly(passes[0].t, passes[j].t, passes[j].command, d);
    }
  }

  lemma NoEarlyPass(passes: seq<Pass>, gap: nat, d: uint32, j: nat)
    requires Uninterrupted(passes, gap) && 0 < j < |passes|
    requires passes[j - 1].t - passes[0].t < d
    ensures !SomePassAfter(EventsOf(passes[1..j]), Clock(passes[0].t), d)
  {
    var events := EventsOf(passes[1..j]);
    forall k | 0 <= k < |events| ensures !PassAfter(events[k], Clock(passes[0].t), d) {
      TimesIncrease(passes, gap, 0, k + 1);
      TimesIncrease(passes, gap, k + 1, j - 1);
      NeverEarly(passes[0].t, passes[k + 1].t, passes[k + 1].command, d);
    }
  }

  /**
    On the true clock, with passes no further apart than 2^32 ms less the duration: the pass that
    clears a timed item is the first one at least its duration after it was shown.
  */
  lemma TimedItemClearsOnTime(s: State, passes: seq<Pass>, gap: nat, j: nat, guarded: bool)
    requires 0 < j < |passes| && Uninterrupted(passes, gap) && Supersedes(EventOf(passes[0]))
    requires var d := DurationOf(passes[0].command.value); 0 < d && d + gap <= 0x1_0000_0000
    ensures Fires(Run(Step(s, EventOf(passes[0]), guarded), EventsOf(passes[1..j]), guarded), EventOf(passes[j]),
              guarded) <==>
            passes[j - 1].t - passes[0].t < DurationOf(passes[0].command.value) <= passes[j].t - passes[0].t
  {
    var d, start := DurationOf(passes[0].command.value), Clock(passes[0].t);
    hide Step, Fires, Supersedes, PassAfter;
    var events := EventsOf(passes[1..j]);
    forall i | 0 <= i < |events| ensures !Supersedes(events[i]) {
      assert !Supersedes(EventOf(passes[i + 1]));
    }
    TimedItemClearsOnce(s, EventOf(passes[0]), events, EventOf(passes[j]), guarded);
    TimesIncrease(passes, gap, 0, j - 1);
    if passes[j - 1].t - passes[0].t >= d {
      var k := FirstLatePass(passes, gap, d, j - 1);
      assert PassAfter(events[k - 1], start, d);
    } else {
      NoEarlyPass(passes, gap, d, j);
      NeverEarly(passes[0].t, passes[j].t, passes[j].command, d);
    }
  }
}
