/**
  Requests and passes of the display loop together: what the panel shows once nothing more is
  requested and everything pending was polled.
*/
module DisplaySystem {
  import opened Words
  import opened Options
  import opened MatrixDisplay
  import opened CommandState

  datatype System = System(pending: Pending, display: State)

  /** A pass polls one command, with the background that is remembered at the time. */
  function Passed(sys: System, now: uint32): System {
    var (command, rest) := Polled(sys.pending);
    System(rest, Step(sys.display.(background := sys.pending.background), Loop(now, command), true))
  }

  /** Passes without any request between them. */
  function Drain(sys: System, nows: seq<uint32>): System
    decreases |nows|
  {
    if nows == [] then sys else Drain(Passed(sys, nows[0]), nows[1..])
  }

  class Display {
    const state: MatrixState
    const service: MatrixService

    ghost function Abstract(): System
      reads state, service
    {
      System(state.Abstract(), service.Abstract())
    }

    constructor (icons: Icons)
      ensures fresh(state) && fresh(service) && Abstract() == Start(icons)
    {
      state := new MatrixState();
      service := new MatrixService(icons);
    }

    method Loop(now: uint32)
      modifies state, service
      ensures Abstract() == Passed(old(Abstract()), now)
    {
      service.background := state.background;
      var command := state.Poll();
      service.Loop(now, command);
    }
  }

  function Start(icons: Icons): System {
    System(INITIAL, State(false, Blank, NoIcon, 0, 0, false, icons, Background(None, None)))
  }

  // ---- What a pass does to the panel ----

  /** What a command puts on a panel that is not muted. */
  function ContentOf(s: State, background: Background, c: Command): Content {
    match c
    case Clear(stopBackground) => if stopBackground then Blank else Restored(background)
    case ShowIcon(icon, _) => IconContent(s, icon)
    case ShowText(text, color, _) => Text(text, color)
    case ShowSolid(color) => Solid(color)
    case ShowEffect(effect, _) => Running(effect)
    case ShowDataVisualization(config, _) => Visualization(config)
    case _ => s.content
  }

  /** An icon the guard would skip is on the panel. */
  predicate Drawable(s: State, c: Command) {
    c.ShowIcon? ==> c.icon != s.activeIcon || s.content == IconContent(s, c.icon) || s.muted
  }

  /** A pass that shows something shows it at once, unless muted. */
  lemma PassShows(s: State, now: uint32, c: Command)
    requires Supersedes(Event.Loop(now, Some(c))) && Drawable(s, c) && (s.muted ==> s.content == Blank)
    ensures Step(s, Event.Loop(now, Some(c)), true).content == if s.muted then Blank else ContentOf(s, s.background, c)
  {
    hide Restored, IconContent;
    SupersedingStarts(s, Event.Loop(now, Some(c)), true);
  }

  /** Only a brightness mutes or unmutes, and no pass edits icons. */
  lemma PassKeeps(s: State, now: uint32, command: Option<Command>)
    ensures var after := Step(s, Event.Loop(now, command), true);
            && after.icons == s.icons
            && after.muted ==
                (if command.Some? && command.value.SetBrightness? then command.value.value == 0 else s.muted)
  {
    hide Restored, IconContent, Due;
  }

  // ---- Draining ----

  /** Whether the panel is muted once everything is polled. */
  predicate EndsMuted(sys: System) {
    if sys.pending.brightnessDirty then sys.pending.brightness == 0 else sys.display.muted
  }

  /** What the panel shows once everything is polled, when it is not muted. */
  function EndContent(sys: System): Content {
    match LastContent(sys.pending)
    case None => sys.display.content
    case Some(c) => ContentOf(sys.display, sys.pending.background, c)
  }

  /** If an icon comes last, it is a real one and the guard does not skip it while the panel is dark. */
  ghost predicate Ready(sys: System) {
    && Consistent(sys.display)
    && var last := LastContent(sys.pending);
       last.Some? && last.value.ShowIcon? ==>
         && last.value.icon != NoIcon
         && (EndsMuted(sys) || last.value.icon != sys.display.activeIcon
             || sys.display.content == IconContent(sys.display, last.value.icon))
  }

  lemma PassIsConsistent(sys: System, now: uint32)
    requires Consistent(sys.display)
    ensures Consistent(Passed(sys, now).display)
  {
    hide Step, Polled, Consistent;
    var (command, _) := Polled(sys.pending);
    BackgroundKeepsConsistent(sys.display, sys.pending.background);
    StepKeepsConsistent(sys.display.(background := sys.pending.background), Event.Loop(now, command), true);
  }

  lemma BackgroundKeepsConsistent(s: State, background: Background)
    requires Consistent(s)
    ensures Consistent(s.(background := background))
  {
    BackgroundIsNoContent(s, background);
  }

  /** A pass with a brightness or rotation, and one with content that is not the last, change nothing about the end. */
  lemma PassKeepsEnd(sys: System, now: uint32)
    requires Ready(sys) && LastContent(sys.pending).Some? && |Drained(sys.pending)| > 1
    ensures var next := Passed(sys, now);
            Ready(next) && LastContent(next.pending) == LastContent(sys.pending)
            && EndsMuted(next) == EndsMuted(sys) && EndContent(next) == EndContent(sys)
  {
    var (command, rest) := Polled(sys.pending);
    var s := sys.display.(background := sys.pending.background);
    MoreThanOne(sys.pending);
    PassKeeps(s, now, command);
    PassIsConsistent(sys, now);
    var last := LastContent(sys.pending).value;
    SameEnd(sys.display, Passed(sys, now).display, sys.pending.background, last);
    if last.ShowIcon? {
      LastIconWaits(sys, now);
    }
  }

  lemma SameEnd(s: State, t: State, background: Background, c: Command)
    requires s.icons == t.icons && (Supersedes(Event.Loop(0, Some(c))))
    ensures ContentOf(s, background, c) == ContentOf(t, background, c)
  {
  }

  /** As long as more than the last content command is pending, the last one stays. */
  lemma MoreThanOne(p: Pending)
    requires LastContent(p).Some? && |Drained(p)| > 1
    ensures var (command, rest) := Polled(p);
            && command.Some? && LastContent(rest) == LastContent(p) && rest.background == p.background
            && Supersedes(Event.Loop(0, LastContent(p)))
            && (if p.brightnessDirty then command.value == SetBrightness(p.brightness) && !rest.brightnessDirty
                else !command.value.SetBrightness? && !rest.brightnessDirty)
            && (LastContent(p).value.ShowIcon? ==> command.value.SetBrightness? || command.value.SetRotation?)
  {
    if !p.brightnessDirty && p.rotation.None? {
      NoHardware(p);
      if p.clear.None? {
        NotTheOnly(p);
      }
    }
  }

  lemma NotTheOnly(p: Pending)
    requires p.clear.None? && |ContentCommands(p)| > 1
    ensures !(LastContent(p).Some? && LastContent(p).value.ShowIcon?)
    ensures !p.brightnessDirty && p.rotation.None? ==> LastContent(Polled(p).1) == LastContent(p)
  {
  }

  lemma LastIconWaits(sys: System, now: uint32)
    requires Ready(sys) && |Drained(sys.pending)| > 1
    requires LastContent(sys.pending).Some? && LastContent(sys.pending).value.ShowIcon?
    ensures Ready(Passed(sys, now))
  {
    hide Restored, Due;
    MoreThanOne(sys.pending);
    PassIsConsistent(sys, now);
    PassKeeps(sys.display.(background := sys.pending.background), now, Polled(sys.pending).0);
  }

  /** The last pass of the backlog. */
  lemma LastPassShows(sys: System, now: uint32)
    requires Ready(sys) && LastContent(sys.pending).Some? && |Drained(sys.pending)| == 1
    ensures var next := Passed(sys, now);
            && Drained(next.pending) == []
            && next.display.content == if EndsMuted(sys) then Blank else EndContent(sys)
  {
    OnlyOne(sys.pending);
    PollTakesFirst(sys.pending);
    var s := sys.display.(background := sys.pending.background);
    var c := LastContent(sys.pending).value;
    PassShows(s, now, c);
    SameEnd(sys.display, s, sys.pending.background, c);
  }

  lemma OnlyOne(p: Pending)
    requires LastContent(p).Some? && |Drained(p)| == 1
    ensures !p.brightnessDirty && Polled(p).0 == LastContent(p) && Supersedes(Event.Loop(0, LastContent(p)))
  {
    LastContentIsLast(p);
    PollTakesFirst(p);
  }

  /**
    With everything polled the panel shows what the pending command of lowest priority asks for,
    or nothing while muted.
  */
  lemma {:induction false} DrainShowsLast(sys: System, nows: seq<uint32>)
    requires Ready(sys) && LastContent(sys.pending).Some? && |nows| == |Drained(sys.pending)|
    ensures var after := Drain(sys, nows);
            && Drained(after.pending) == []
            && after.display.content == if EndsMuted(sys) then Blank else EndContent(sys)
    decreases |nows|
  {
    hide Passed, Polled, Drained, LastContent, EndContent, EndsMuted, Ready;
    SomethingToDrain(sys.pending);
    PollShortens(sys, nows[0]);
    if |nows| == 1 {
      LastPassShows(sys, nows[0]);
      assert nows[1..] == [];
    } else {
      PassKeepsEnd(sys, nows[0]);
      DrainShowsLast(Passed(sys, nows[0]), nows[1..]);
    }
  }

  lemma SomethingToDrain(p: Pending)
    ensures LastContent(p).Some? ==> Drained(p) != []
  {
    LastContentIsLast(p);
  }

  lemma PollShortens(sys: System, now: uint32)
    ensures Drained(sys.pending) != [] ==> |Drained(Passed(sys, now).pending)| == |Drained(sys.pending)| - 1
  {
    PollTakesFirst(sys.pending);
  }

  // ---- The latest request ----

  function Asked(sys: System, c: Command): System {
    sys.(pending := Requested(sys.pending, c))
  }

  /**
    What becomes of the latest request for content. With no clear pending it is what the panel
    shows, unless it is a colour and an animation is pending: then that is. With a clear pending
    the request is lost, and the panel shows what the clear leaves.
  */
  lemma LatestRequest(sys: System, c: Command, nows: seq<uint32>)
    requires HasContent(c) && Ready(Asked(sys, c))
    requires |nows| == |Drained(Requested(sys.pending, c))| && !EndsMuted(sys)
    ensures var p, after := sys.pending, Drain(Asked(sys, c), nows).display;
            after.content ==
            if p.clear.Some? then (if p.clear.value then Blank else Restored(Requested(p, c).background))
            else if c.ShowSolid? && p.visualization.Some? then Visualization(p.visualization.value.item)
            else if c.ShowSolid? && p.effect.Some? then Running(p.effect.value.item)
            else ContentOf(sys.display, p.background, Arriving(c))
  {
    hide Drain, Drained, Restored;
    DrainShowsLast(Asked(sys, c), nows);
  }

  // ---- Whole runs ----

  datatype Act = Submit(request: Request) | Tick(now: uint32) | EditIcon(icon: IconType, bitmap: seq<uint32>)

  function Acted(sys: System, act: Act): System {
    match act
    case Submit(request) => sys.(pending := After(sys.pending, request))
    case Tick(now) => Passed(sys, now)
    case EditIcon(icon, bitmap) => sys.(display := Step(sys.display, Event.SetCustomIcon(icon, bitmap), true))
  }

  function Run(sys: System, acts: seq<Act>): System {
    if acts == [] then sys else Acted(Run(sys, acts[..|acts| - 1]), acts[|acts| - 1])
  }

  /** Neither brightness nor limit is set to 0, and only real icons are asked for. */
  predicate BrightCommand(c: Command) {
    (c.SetBrightness? ==> c.value != 0) && (c.ShowIcon? ==> c.icon != NoIcon)
  }

  predicate Bright(act: Act) {
    act.Submit? ==>
      && (act.request.Show? ==> BrightCommand(act.request.command))
      && (act.request.SetThermalLimit? ==> act.request.limit != 0)
  }

  predicate BrightPending(p: Pending) {
    && (p.brightnessDirty ==> p.brightness != 0)
    && p.userBrightness != 0 && p.thermalLimit != 0
    && (p.icon.Some? ==> p.icon.value.item != NoIcon)
  }

  ghost predicate BrightSystem(sys: System) {
    BrightPending(sys.pending) && Lit(sys.display)
  }

  lemma BrightRequest(p: Pending, r: Request)
    requires BrightPending(p) && Bright(Submit(r))
    ensures BrightPending(After(p, r))
  {
    hide Truncated;
  }

  lemma BrightPoll(p: Pending, now: uint32)
    requires BrightPending(p)
    ensures BrightPending(Polled(p).1) && Ordinary(Event.Loop(now, Polled(p).0))
  {
  }

  lemma BrightAct(sys: System, act: Act)
    requires BrightSystem(sys) && Bright(act)
    ensures BrightSystem(Acted(sys, act))
  {
    hide BrightPending, Ordinary, Step, Polled, After, Bright;
    match act
    case Submit(request) =>
      BrightRequest(sys.pending, request);
    case Tick(now) =>
      BrightPoll(sys.pending, now);
      var s := sys.display.(background := sys.pending.background);
      assert Lit(s);
      OrdinaryStepStaysLit(s, Event.Loop(now, Polled(sys.pending).0));
    case EditIcon(icon, bitmap) =>
      EditIsOrdinary(icon, bitmap);
      OrdinaryStepStaysLit(sys.display, Event.SetCustomIcon(icon, bitmap));
  }

  lemma EditIsOrdinary(icon: IconType, bitmap: seq<uint32>)
    ensures Ordinary(Event.SetCustomIcon(icon, bitmap))
  {
  }

  lemma {:induction false} BrightRun(icons: Icons, acts: seq<Act>)
    requires forall i :: 0 <= i < |acts| ==> Bright(acts[i])
    ensures BrightSystem(Run(Start(icons), acts))
  {
    if acts != [] {
      BrightRun(icons, acts[..|acts| - 1]);
      BrightAct(Run(Start(icons), acts[..|acts| - 1]), acts[|acts| - 1]);
    }
  }

  /**
    After any run of requests, passes and icon edits that never goes dark, a further request and as
    many passes as there are commands pending: the panel shows the request exactly as told above.
  */
  lemma LatestRequestAfterRun(icons: Icons, acts: seq<Act>, c: Command, nows: seq<uint32>)
    requires forall i :: 0 <= i < |acts| ==> Bright(acts[i])
    requires HasContent(c) && BrightCommand(c)
    requires |nows| == |Drained(Requested(Run(Start(icons), acts).pending, c))|
    ensures var sys := Run(Start(icons), acts);
            var p, after := sys.pending, Drain(Asked(sys, c), nows).display;
            after.content ==
            if p.clear.Some? then (if p.clear.value then Blank else Restored(Requested(p, c).background))
            else if c.ShowSolid? && p.visualization.Some? then Visualization(p.visualization.value.item)
            else if c.ShowSolid? && p.effect.Some? then Running(p.effect.value.item)
            else ContentOf(sys.display, p.background, Arriving(c))
  {
    BrightRun(icons, acts);
    BrightIsReady(Run(Start(icons), acts), c);
    LatestRequest(Run(Start(icons), acts), c, nows);
  }

  lemma BrightIsReady(sys: System, c: Command)
    requires BrightSystem(sys) && HasContent(c) && BrightCommand(c)
    ensures Ready(Asked(sys, c)) && !EndsMuted(sys)
  {
  }

  // ---- What the panel goes back to ----

  /**
    What the requests of a run leave to go back to: the last effect or visualisation without a duration,
    unless it was forgotten or a stopping clear came after it.
  */
  function GoesBackTo(acts: seq<Act>): Content {
    if acts == [] then Blank
    else
      var before := GoesBackTo(acts[..|acts| - 1]);
      match acts[|acts| - 1]
      case Submit(Show(ShowEffect(effect, durationMs))) => if durationMs == 0 then Running(effect) else before
      case Submit(Show(ShowDataVisualization(config, durationMs))) =>
        if durationMs == 0 then Visualization(config) else before
      case Submit(Show(Clear(stopBackground))) => if stopBackground then Blank else before
      case Submit(ForgetEffect) => if before.Running? then Blank else before
      case Submit(ForgetDataVisualization) => if before.Visualization? then Blank else before
      case _ => before
  }

  lemma {:induction false} BackgroundFollowsRequests(icons: Icons, acts: seq<Act>)
    ensures Run(Start(icons), acts).pending.background ==
            match GoesBackTo(acts)
            case Running(effect) => Background(None, Some(effect))
            case Visualization(config) => Background(Some(config), None)
            case _ => Background(None, None)
  {
    if acts != [] {
      var before := Run(Start(icons), acts[..|acts| - 1]);
      BackgroundFollowsRequests(icons, acts[..|acts| - 1]);
      if acts[|acts| - 1].Tick? {
        PollKeepsBackground(before.pending);
      }
    }
  }

  lemma PollKeepsBackground(p: Pending)
    ensures Polled(p).1.background == p.background
  {
  }

  /** In a pass that gets a clear which keeps the background, or clears a timed item, the panel goes back to it. */
  lemma PanelGoesBack(icons: Icons, acts: seq<Act>, now: uint32)
    requires var sys := Run(Start(icons), acts);
             var command := Polled(sys.pending).0;
             command == Some(Clear(false)) || Fires(sys.display, Event.Loop(now, command), true)
    ensures var after := Run(Start(icons), acts + [Tick(now)]).display;
            && after.content == (if after.muted then Blank else GoesBackTo(acts))
            && after.activeIcon == NoIcon && !after.autoClearing
  {
    var sys := Run(Start(icons), acts);
    BackgroundFollowsRequests(icons, acts);
    OnlyBackgroundsRemain(acts);
    RunOfOneMore(Start(icons), acts, Tick(now));
    var s := sys.display.(background := sys.pending.background);
    if Polled(sys.pending).0 == Some(Clear(false)) {
      SupersedingStarts(s, Event.Loop(now, Some(Clear(false))), true);
    } else {
      FiringGoesBack(sys.display, sys.pending.background, now, Polled(sys.pending).0);
    }
  }

  lemma {:induction false} OnlyBackgroundsRemain(acts: seq<Act>)
    ensures GoesBackTo(acts) == Blank || GoesBackTo(acts).Running? || GoesBackTo(acts).Visualization?
  {
    if acts != [] {
      OnlyBackgroundsRemain(acts[..|acts| - 1]);
    }
  }

  lemma FiringGoesBack(display: State, background: Background, now: uint32, command: Option<Command>)
    requires Fires(display, Event.Loop(now, command), true)
    ensures var s := display.(background := background);
            var after := Step(s, Event.Loop(now, command), true);
            && after.content == (if after.muted then Blank else Restored(background))
            && after.activeIcon == NoIcon && !after.autoClearing
  {
    var e := Event.Loop(now, command);
    if Supersedes(e) {
      SupersedingStarts(display, e, true);
    }
  }

  /** An effect, an icon for five seconds over it, and a pass five seconds later: the effect is on the panel again. */
  lemma EffectComesBack(icons: Icons, effect: Effect, now: uint32, gap: uint32)
    requires 5000 <= gap
    ensures var shown := Run(Start(icons), [Submit(Show(ShowEffect(effect, 0))), Tick(now),
              Submit(Show(ShowIcon(Info, 5000))), Tick(now)]);
            var later := Acted(shown, Tick(ToUint32(now + gap)));
            shown.display.content.Icon? && later.display.content == Running(effect)
  {
    hide Icons.CustomOf;
    var first, second, tick := Submit(Show(ShowEffect(effect, 0))), Submit(Show(ShowIcon(Info, 5000))), Tick(now);
    assert [first, tick, second, tick] == [] + [first] + [tick] + [second] + [tick];
    RunOfOneMore(Start(icons), [] + [first] + [tick] + [second], tick);
    RunOfOneMore(Start(icons), [] + [first] + [tick], second);
    RunOfOneMore(Start(icons), [] + [first], tick);
    RunOfOneMore(Start(icons), [], first);
    WrappedLater(now, gap);
  }

  lemma WrappedLater(now: uint32, gap: uint32)
    ensures ToUint32(ToUint32(now + gap) - now) == gap
  {
  }

  // ---- Requests that do not show ----

  /** An icon requested right after a clear, before the next pass: the panel stays blank and nothing is pending. */
  lemma IconAfterClearIsLost(icons: Icons, now: uint32)
    ensures var sys := Run(Start(icons), [Submit(Show(Clear(true))), Submit(Show(ShowIcon(Info, 0))), Tick(now)]);
            sys.display.content == Blank && Drained(sys.pending) == []
  {
    var clear, icon, tick := Submit(Show(Clear(true))), Submit(Show(ShowIcon(Info, 0))), Tick(now);
    assert [clear, icon, tick] == [] + [clear] + [icon] + [tick];
    RunOfOneMore(Start(icons), [] + [clear] + [icon], tick);
    RunOfOneMore(Start(icons), [] + [clear], icon);
    RunOfOneMore(Start(icons), [], clear);
  }

  /** A colour requested after an effect, before the next pass: two passes later the effect is on the panel. */
  lemma ColourAfterEffectIsOverdrawn(icons: Icons, effect: Effect, color: uint32, now: uint32)
    ensures var sys := Run(Start(icons),
              [Submit(Show(ShowEffect(effect, 0))), Submit(Show(ShowSolid(color))), Tick(now), Tick(now)]);
            sys.display.content == Running(effect) && Drained(sys.pending) == []
  {
    var first, second, tick := Submit(Show(ShowEffect(effect, 0))), Submit(Show(ShowSolid(color))), Tick(now);
    assert [first, second, tick, tick] == [] + [first] + [second] + [tick] + [tick];
    RunOfOneMore(Start(icons), [] + [first] + [second] + [tick], tick);
    RunOfOneMore(Start(icons), [] + [first] + [second], tick);
    RunOfOneMore(Start(icons), [] + [first], second);
    RunOfOneMore(Start(icons), [], first);
  }

  lemma RunOfOneMore(sys: System, acts: seq<Act>, act: Act)
    ensures Run(sys, acts + [act]) == Acted(Run(sys, acts), act)
  {
    assert (acts + [act])[..|acts|] == acts;
  }
}
