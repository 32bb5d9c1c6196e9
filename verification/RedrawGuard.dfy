/**
  When skipping redraws of the active icon is visible, told from the events alone: which command
  came last, what ended it, and when the panel was dark.
*/
module RedrawGuard {
  import opened Words
  import opened Options
  import opened MatrixDisplay

  predicate Asks(e: Event, icon: IconType) {
    e.Loop? && e.command.Some? && e.command.value.ShowIcon? && e.command.value.icon == icon
  }

  /** Whether the panel is dark after the first n events: the last brightness was 0. */
  predicate Dark(muted: bool, events: seq<Event>, n: nat)
    requires n <= |events|
  {
    if n == 0 then muted
    else
      var e := events[n - 1];
      if e.Loop? && e.command.Some? && e.command.value.SetBrightness? then e.command.value.value == 0
      else Dark(muted, events, n - 1)
  }

  /** The last of the first n events that put something else on the panel, or took it off. */
  function LastShown(events: seq<Event>, n: nat): (m: Option<nat>)
    requires n <= |events|
    ensures m.Some? ==> m.value < n && Supersedes(events[m.value])
  {
    if n == 0 then None
    else if Supersedes(events[n - 1]) then Some(n - 1)
    else LastShown(events, n - 1)
  }

  /** Event n is a pass that finds the duration of what was shown last on the clock. */
  predicate TimesOut(events: seq<Event>, n: nat)
    requires n < |events|
  {
    match LastShown(events, n + 1)
    case None => false
    case Some(m) =>
      var durationMs := DurationOf(events[m].command.value);
      durationMs > 0 && PassAfter(events[n], events[m].now, durationMs)
  }

  /** Event n edits the icon, shows something else or clears the panel. */
  predicate Ends(events: seq<Event>, n: nat, icon: IconType)
    requires n < |events|
  {
    || (events[n].SetCustomIcon? && events[n].icon == icon)
    || (Supersedes(events[n]) && !Asks(events[n], icon))
    || TimesOut(events, n)
  }

  /** The icon was asked for at k, and nothing ended it before n. */
  ghost predicate ActiveSince(events: seq<Event>, k: nat, n: nat, icon: IconType)
    requires n <= |events|
  {
    k < n && Asks(events[k], icon) && forall j :: k < j < n ==> !Ends(events, j, icon)
  }

  /** The panel was dark right after event i, at or after k. */
  ghost predicate DarkSince(muted: bool, events: seq<Event>, k: nat, i: nat, n: nat, icon: IconType)
    requires n <= |events|
  {
    ActiveSince(events, k, n, icon) && k <= i < n && Dark(muted, events, i + 1)
  }

  ghost predicate Active(events: seq<Event>, n: nat, icon: IconType)
    requires n <= |events|
  {
    exists k: nat :: ActiveSince(events, k, n, icon)
  }

  ghost predicate WentDark(muted: bool, events: seq<Event>, n: nat, icon: IconType)
    requires n <= |events|
  {
    exists k: nat, i: nat :: DarkSince(muted, events, k, i, n, icon)
  }

  /** Event n asks for an icon that is still active, on a lit panel that was dark in the meantime. */
  ghost predicate HiddenAt(muted: bool, events: seq<Event>, n: nat)
    requires n < |events|
  {
    && events[n].Loop? && events[n].command.Some? && events[n].command.value.ShowIcon?
    && !Dark(muted, events, n)
    && WentDark(muted, events, n, events[n].command.value.icon)
  }

  // ---- One event more ----

  lemma AskingEndsNothing(events: seq<Event>, n: nat, icon: IconType)
    requires n < |events| && Asks(events[n], icon)
    ensures !Ends(events, n, icon)
  {
  }

  lemma ActiveStep(events: seq<Event>, n: nat, icon: IconType)
    requires n < |events|
    ensures Active(events, n + 1, icon) <==>
              Asks(events[n], icon) || (Active(events, n, icon) && !Ends(events, n, icon))
  {
    hide Ends, Asks;
    if Asks(events[n], icon) {
      assert ActiveSince(events, n, n + 1, icon);
    } else if Active(events, n, icon) && !Ends(events, n, icon) {
      var k: nat :| ActiveSince(events, k, n, icon);
      assert ActiveSince(events, k, n + 1, icon);
    }
    if Active(events, n + 1, icon) && !Asks(events[n], icon) {
      var k: nat :| ActiveSince(events, k, n + 1, icon);
      assert ActiveSince(events, k, n, icon);
    }
  }

  /** While the icon is active, it went dark if it was before or the panel is now. */
  lemma DarkStep(muted: bool, events: seq<Event>, n: nat, icon: IconType)
    requires n < |events| && Active(events, n + 1, icon)
    ensures WentDark(muted, events, n + 1, icon) <==>
              Dark(muted, events, n + 1) || WentDark(muted, events, n, icon)
  {
    hide Dark, Ends, Asks;
    if WentDark(muted, events, n + 1, icon) {
      var k: nat, i: nat :| DarkSince(muted, events, k, i, n + 1, icon);
      if i < n {
        assert DarkSince(muted, events, k, i, n, icon);
      }
    }
    if Dark(muted, events, n + 1) {
      var k: nat :| ActiveSince(events, k, n + 1, icon);
      assert DarkSince(muted, events, k, n, n + 1, icon);
    }
    if WentDark(muted, events, n, icon) {
      var k: nat, i: nat :| DarkSince(muted, events, k, i, n, icon);
      NotEnded(events, n, icon);
      assert ActiveSince(events, k, n + 1, icon);
      assert DarkSince(muted, events, k, i, n + 1, icon);
    }
  }

  lemma NotEnded(events: seq<Event>, n: nat, icon: IconType)
    requires n < |events| && Active(events, n + 1, icon)
    ensures !Ends(events, n, icon)
  {
    if Asks(events[n], icon) {
      AskingEndsNothing(events, n, icon);
    } else {
      ActiveStep(events, n, icon);
    }
  }

  // ---- What the guarded display is in, by the events ----

  /** The timer is that of what was shown last, and once it has run out no icon is active. */
  ghost predicate TimerFollows(s: State, events: seq<Event>, n: nat)
    requires n <= |events|
  {
    match LastShown(events, n)
    case None => !s.autoClearing
    case Some(m) =>
      var durationMs := DurationOf(events[m].command.value);
      if durationMs == 0 then !s.autoClearing
      else s.startMs == events[m].now && s.durationMs == durationMs && (s.autoClearing || s.activeIcon == NoIcon)
  }

  lemma TimerStepFollows(s: State, events: seq<Event>, n: nat)
    requires n < |events| && TimerFollows(s, events, n)
    ensures TimerFollows(Step(s, events[n], true), events, n + 1)
    ensures TimesOut(events, n) ==> Step(s, events[n], true).activeIcon == NoIcon
    ensures !TimesOut(events, n) ==> !Fires(s, events[n], true)
  {
    if Supersedes(events[n]) {
      SupersedingStarts(s, events[n], true);
    } else {
      TimerStep(s, events[n], true);
      QuietStep(s, events[n]);
    }
  }

  /** An event that shows nothing only ever makes the active icon inactive. */
  lemma QuietStep(s: State, e: Event)
    requires !Supersedes(e)
    ensures Step(s, e, true).activeIcon ==
            if Fires(s, e, true) || (e.SetCustomIcon? && e.icon == s.activeIcon) then NoIcon else s.activeIcon
  {
    hide Existing, Restored;
  }

  lemma ShowingStep(s: State, e: Event)
    requires Supersedes(e)
    ensures Step(s, e, true).activeIcon ==
            if e.command.value.ShowIcon? then e.command.value.icon else NoIcon
  {
    hide Existing, Restored;
    SupersedingStarts(s, e, true);
  }

  lemma IconStep(s: State, events: seq<Event>, n: nat, icon: IconType)
    requires n < |events| && TimerFollows(s, events, n) && icon != NoIcon
    ensures Step(s, events[n], true).activeIcon == icon <==>
              Asks(events[n], icon) || (s.activeIcon == icon && !Ends(events, n, icon))
  {
    hide Step, TimerFollows;
    TimerStepFollows(s, events, n);
    if Supersedes(events[n]) {
      ShowingStep(s, events[n]);
    } else {
      QuietStep(s, events[n]);
    }
    if Asks(events[n], icon) {
      AskingEndsNothing(events, n, icon);
    }
  }

  lemma MutedStep(muted: bool, s: State, events: seq<Event>, n: nat)
    requires n < |events| && s.muted == Dark(muted, events, n)
    ensures Step(s, events[n], true).muted == Dark(muted, events, n + 1)
  {
    hide Existing, Restored, Due;
  }

  /** An active icon is dark if the panel is, or if it was and is not drawn. */
  lemma BlankStep(s: State, e: Event)
    requires Consistent(s) && Step(s, e, true).activeIcon != NoIcon
    ensures var next := Step(s, e, true);
            next.content == Blank <==> next.muted || (s.activeIcon == next.activeIcon && s.content == Blank)
  {
    hide Existing, Restored, Due, Commanded;
    if e.Loop? && e.command.Some? {
      BlankCommand(s, e.now, e.command.value);
    }
  }

  lemma BlankCommand(s: State, now: uint32, c: Command)
    requires Consistent(s) && Commanded(s, now, c, true).activeIcon != NoIcon
    ensures var next := Commanded(s, now, c, true);
            next.content == Blank <==> next.muted || (s.activeIcon == next.activeIcon && s.content == Blank)
  {
    hide Existing, Restored;
  }

  /** All that the guard depends on, by the first n events. */
  ghost predicate Follows(muted: bool, s: State, events: seq<Event>, n: nat)
    requires n <= |events|
  {
    && Consistent(s) && TimerFollows(s, events, n) && s.muted == Dark(muted, events, n)
    && forall icon: IconType :: icon != NoIcon ==> IconFollows(muted, s, events, n, icon)
  }

  ghost predicate IconFollows(muted: bool, s: State, events: seq<Event>, n: nat, icon: IconType)
    requires n <= |events|
  {
    && (s.activeIcon == icon <==> Active(events, n, icon))
    && (s.activeIcon == icon ==> (s.content == Blank <==> WentDark(muted, events, n, icon)))
  }

  lemma InactiveIsNotDark(muted: bool, events: seq<Event>, n: nat, icon: IconType)
    requires n <= |events| && !Active(events, n, icon)
    ensures !WentDark(muted, events, n, icon)
  {
  }

  lemma IconStepFollows(muted: bool, s: State, events: seq<Event>, n: nat, icon: IconType)
    requires n < |events| && Follows(muted, s, events, n) && icon != NoIcon
    ensures IconFollows(muted, Step(s, events[n], true), events, n + 1, icon)
  {
    hide Step, TimerFollows, Consistent, Dark, Active, WentDark, Ends, Asks;
    assert IconFollows(muted, s, events, n, icon);
    IconStep(s, events, n, icon);
    ActiveStep(events, n, icon);
    MutedStep(muted, s, events, n);
    if Step(s, events[n], true).activeIcon == icon {
      BlankStep(s, events[n]);
      DarkStep(muted, events, n, icon);
      if !Active(events, n, icon) {
        InactiveIsNotDark(muted, events, n, icon);
      }
    }
  }

  lemma {:induction false} RunFollows(s: State, events: seq<Event>, n: nat)
    requires Consistent(s) && s.activeIcon == NoIcon && !s.autoClearing && n <= |events|
    ensures Follows(s.muted, Run(s, events[..n], true), events, n)
  {
    hide Step, TimerFollows, Consistent, Dark, IconFollows;
    if n == 0 {
      NothingFollows(s, events);
    } else {
      var before := Run(s, events[..n - 1], true);
      RunFollows(s, events, n - 1);
      assert events[..n][..n - 1] == events[..n - 1];
      StepKeepsConsistent(before, events[n - 1], true);
      TimerStepFollows(before, events, n - 1);
      MutedStep(s.muted, before, events, n - 1);
      IconStepFollows(s.muted, before, events, n - 1, Info);
      IconStepFollows(s.muted, before, events, n - 1, Warning);
      IconStepFollows(s.muted, before, events, n - 1, Critical);
    }
  }

  lemma NothingFollows(s: State, events: seq<Event>)
    requires Consistent(s) && s.activeIcon == NoIcon && !s.autoClearing
    ensures Follows(s.muted, s, events, 0)
  {
  }

  lemma SkippedIff(s: State, events: seq<Event>, n: nat)
    requires Consistent(s) && s.activeIcon == NoIcon && !s.autoClearing && n < |events| && !Asks(events[n], NoIcon)
    ensures SkippedAt(s, events, n) <==> HiddenAt(s.muted, events, n)
  {
    hide Step, TimerFollows, Consistent, Dark, Active, WentDark;
    RunFollows(s, events, n);
    if events[n].Loop? && events[n].command.Some? && events[n].command.value.ShowIcon? {
      var icon := events[n].command.value.icon;
      assert IconFollows(s.muted, Run(s, events[..n], true), events, n, icon);
      if !Active(events, n, icon) {
        InactiveIsNotDark(s.muted, events, n, icon);
      }
    }
  }

  /**
    From a start with no icon and no timer, the guarded display equals the unguarded one throughout a run
    of requests for real icons exactly when no icon is asked for again on a lit panel that was dark since it
    became active, with the icon neither edited, replaced nor timed out in between.
  */
  lemma GuardedRunOnEventsIff(s: State, events: seq<Event>)
    requires Consistent(s) && s.activeIcon == NoIcon && !s.autoClearing
    requires forall n :: 0 <= n < |events| ==> !Asks(events[n], NoIcon)
    ensures Agree(s, events) <==> forall n: nat :: n < |events| ==> !HiddenAt(s.muted, events, n)
  {
    hide HiddenAt, Agree;
    GuardedRunIff(s, events);
    forall n: nat | n < |events| ensures SkippedAt(s, events, n) <==> HiddenAt(s.muted, events, n) {
      SkippedIff(s, events, n);
    }
  }
}
