/** The detection loop as it runs: flags, counters and timestamps updated in place. */
module DetectionTasks {
  import opened Options
  import opened AgentDetection
  import opened AgentDetectionRuns

  class AgentDetectionPresence {
    var currentAgent: Option<Agent>
    var consecutiveMisses: nat

    ghost function View(): Presence
      reads this
    {
      Presence(currentAgent, consecutiveMisses)
    }

    constructor FromAgent(agent: Option<Agent>)
      ensures View() == Presence(agent, 0)
    {
      currentAgent, consecutiveMisses := agent, 0;
    }

    method ClearCurrentAgent() returns (changed: bool)
      modifies this
      ensures (View(), changed) == ClearAgent(old(View()))
    {
      changed := currentAgent.Some?;
      currentAgent, consecutiveMisses := None, 0;
    }

    method ObserveProcessProbe(identified: Option<Agent>) returns (changed: bool)
      modifies this
      ensures (View(), changed) == Observe(old(View()), identified)
      ensures old(currentAgent).Some? && currentAgent.None? ==>
                identified.None? && old(consecutiveMisses) + 1 >= MISS_CONFIRMATIONS
    {
      changed := false;
      if identified.Some? {
        consecutiveMisses := 0;
        if currentAgent != identified {
          currentAgent := identified;
          changed := true;
        }
      } else if currentAgent.None? {
        consecutiveMisses := 0;
      } else {
        consecutiveMisses := consecutiveMisses + 1;
        if consecutiveMisses >= MISS_CONFIRMATIONS {
          currentAgent, consecutiveMisses := None, 0;
          changed := true;
        }
      }
    }
  }

  class DetectionTask {
    const variant: Variant
    const presence: AgentDetectionPresence
    var pendingForegroundShellClear: bool
    var foregroundShellExitReported: bool
    var shown: Shown
    var lastVisibleSignalRefresh: Option<Millis>
    var lastProcessCheck: Millis
    var lastForegroundGroup: Option<nat>
    var hasProcessProbe: bool
    var acquisitionStartedAt: Option<Millis>
    var lastContentChangeAt: Option<Millis>
    var releaseWasActive: bool
    var pendingRestoreProbe: bool
    var lastScannedSeq: Option<nat>
    var startupGraceUntil: Option<Millis>
    var pendingIdle: PendingIdle

    ghost function View(): Detector
      reads this, presence
    {
      Detector(
        Handshake(presence.View(), pendingForegroundShellClear, foregroundShellExitReported),
        shown, lastVisibleSignalRefresh, lastProcessCheck, lastForegroundGroup, hasProcessProbe,
        Window(acquisitionStartedAt, lastContentChangeAt), releaseWasActive, pendingRestoreProbe,
        lastScannedSeq, startupGraceUntil, pendingIdle)
    }

    constructor (v: Variant, restored: Option<Agent>, now: Millis)
      ensures View() == Start(v, restored, now) && variant == v && Sound(v, View())
      ensures fresh(presence)
    {
      variant := v;
      var known := if v.Plain? then None else restored;
      presence := new AgentDetectionPresence.FromAgent(known);
      pendingForegroundShellClear, foregroundShellExitReported := false, false;
      shown := Shown(if v.Plain? then Unknown else Idle, known.Some?, false, false);
      lastVisibleSignalRefresh, lastProcessCheck, lastForegroundGroup, hasProcessProbe := None, now, None, false;
      acquisitionStartedAt, lastContentChangeAt := None, None;
      releaseWasActive, pendingRestoreProbe := false, known.Some?;
      lastScannedSeq, startupGraceUntil, pendingIdle := None, None, NOT_PENDING;
    }

    method ForgetAgent()
      modifies presence, this`pendingForegroundShellClear, this`foregroundShellExitReported, this`pendingRestoreProbe
      ensures View() == old(View()).(handshake := Handshake(Presence(None, 0), false, false), pendingRestore := false)
    {
      presence.currentAgent, presence.consecutiveMisses := None, 0;
      pendingForegroundShellClear, foregroundShellExitReported := false, false;
      pendingRestoreProbe := false;
    }

    method ForgetProbes()
      modifies this`lastForegroundGroup, this`hasProcessProbe, this`acquisitionStartedAt,
               this`lastContentChangeAt, this`releaseWasActive
      ensures View() == old(View()).(lastForeground := None, hasProbe := false,
                                     window := NO_WINDOW, releaseActive := false)
    {
      lastForegroundGroup, hasProcessProbe, releaseWasActive := None, false, false;
      acquisitionStartedAt, lastContentChangeAt := None, None;
    }

    method ForgetScreen()
      modifies this`shown, this`lastVisibleSignalRefresh, this`lastScannedSeq, this`startupGraceUntil, this`pendingIdle
      ensures View() == old(View()).(shown := Shown(Unknown, false, false, false), refreshed := None,
                                     scannedSeq := None, graceUntil := None, pendingIdle := NOT_PENDING)
    {
      shown, lastVisibleSignalRefresh := Shown(Unknown, false, false, false), None;
      lastScannedSeq, startupGraceUntil, pendingIdle := None, None, NOT_PENDING;
    }

    /** What a reset request does. */
    method Reset(now: Millis)
      modifies this, presence
      ensures View() == ResetDetector(variant, old(View()), now)
    {
      ForgetAgent();
      ForgetProbes();
      ForgetScreen();
      if variant.Plain? {
        lastProcessCheck := now;
      }
    }

    method ApplyForegroundShellAgentAction(action: Action, previous: Option<Agent>, found: Option<Agent>)
      returns (changed: bool)
      modifies presence, this`pendingForegroundShellClear, this`foregroundShellExitReported
      ensures (View().handshake, changed) == ApplyAction(old(View()).handshake, action, previous, found)
      ensures View() == old(View()).(handshake := View().handshake)
    {
      match action {
        case ReportReplacement =>
          pendingForegroundShellClear, foregroundShellExitReported := false, false;
          var _ := presence.ObserveProcessProbe(previous);
          changed := true;
        case ReportProcessExit =>
          pendingForegroundShellClear := true;
          changed := false;
        case ClearIdentity =>
          pendingForegroundShellClear, foregroundShellExitReported := false, false;
          changed := presence.ClearCurrentAgent();
        case ObserveProbe =>
          pendingForegroundShellClear, foregroundShellExitReported := false, false;
          changed := presence.ObserveProcessProbe(found);
      }
    }

    method SyncContentChangeAcquisition(suppressed: Option<Agent>, groupChanged: bool,
        contentChanged: bool, now: Millis)
      modifies this`acquisitionStartedAt, this`lastContentChangeAt
      ensures View() == old(View()).(window :=
                SyncWindow(old(View()).window, presence.currentAgent, suppressed, groupChanged, contentChanged, now))
    {
      if presence.currentAgent.Some? || suppressed.Some? || groupChanged {
        return;
      }
      if contentChanged {
        var start := acquisitionStartedAt.None?;
        if !start && Since(now, acquisitionStartedAt.value) > ACQUISITION_WINDOW {
          start := lastContentChangeAt.None? || Since(now, lastContentChangeAt.value) >= IDLE_RESET;
        }
        if start {
          acquisitionStartedAt := Some(now);
        }
        lastContentChangeAt := Some(now);
        return;
      }
      if acquisitionStartedAt.None? || lastContentChangeAt.None? {
        return;
      }
      if Since(now, acquisitionStartedAt.value) > ACQUISITION_WINDOW
         && Since(now, lastContentChangeAt.value) >= IDLE_RESET {
        acquisitionStartedAt, lastContentChangeAt := None, None;
      }
    }

    /** Remember that the process was probed, and what that says about later probes. */
    method RememberProbe(t: Tick, hadProbe: bool, regrouped: bool)
      modifies this`lastProcessCheck, this`hasProcessProbe, this`lastForegroundGroup, this`pendingRestoreProbe,
               this`acquisitionStartedAt, this`lastContentChangeAt
      ensures View() == old(View()).(
                lastCheck := t.now, hasProbe := true, pendingRestore := false,
                lastForeground := TrackedGroup(t.Foreground(), t.probe.group),
                window :=
                  if t.Found().Some? then NO_WINDOW
                  else if presence.currentAgent.None? && hadProbe && regrouped
                    then old(View()).window.(started := Some(t.now))
                  else old(View()).window)
    {
      lastProcessCheck, hasProcessProbe, pendingRestoreProbe := t.now, true, false;
      lastForegroundGroup := TrackedGroup(t.Foreground(), t.probe.group);
      if t.Found().Some? {
        acquisitionStartedAt, lastContentChangeAt := None, None;
      } else if presence.currentAgent.None? && hadProbe && regrouped {
        acquisitionStartedAt := Some(t.now);
      }
    }

    /** A changed agent is published as idle and gets a grace period. */
    method AnnounceChange(t: Tick) returns (events: seq<Event>)
      modifies this`pendingIdle, this`lastScannedSeq, this`startupGraceUntil, this`shown, this`lastVisibleSignalRefresh
      ensures (View(), events) == AfterChange(old(View()), t)
    {
      events := [];
      pendingIdle, lastScannedSeq := NOT_PENDING, None;
      if presence.currentAgent.Some? {
        startupGraceUntil := Some(t.now + STARTUP_GRACE);
        shown, lastVisibleSignalRefresh := Shown(Idle, true, false, false), None;
        events := [Published(presence.currentAgent, Idle, false, false, false)];
      } else {
        startupGraceUntil := None;
      }
    }

    /** Probe the foreground process and act on what it finds. A pending release ends when the probe finds
        anything but the agent that is being released. */
    method ProbeProcess(t: Tick) returns (agentChanged: bool, endsRelease: bool, events: seq<Event>)
      modifies this, presence
      ensures (View(), agentChanged, events) == ProbeStep(old(View()), t)
      ensures endsRelease <==> t.suppressed.Some? && t.probe.agent != t.suppressed
      ensures old(foregroundShellExitReported) ==> !foregroundShellExitReported && !pendingForegroundShellClear
    {
      hide ApplyAction, ShellAction, AfterChange;
      events := [];
      var regrouped := GroupChanged(t.Foreground(), lastForegroundGroup);
      var hadProbe := hasProcessProbe;
      var found := t.probe.agent;
      endsRelease := false;
      if t.suppressed.Some? {
        if found == t.suppressed {
          found := None;
        } else {
          endsRelease := true;
        }
      }
      var previous := presence.currentAgent;
      var action := ShellAction(previous, found, t.probe.isShell, foregroundShellExitReported);
      ReportEnds(View().handshake, previous, found, t.probe.isShell);
      agentChanged := ApplyForegroundShellAgentAction(action, previous, found);
      RememberProbe(t, hadProbe, regrouped);
      if agentChanged {
        events := AnnounceChange(t);
      }
    }

    /** Decide and apply the publication of a detection. */
    method Publish(t: Tick, agentChanged: bool, exited: bool, screen: Shown) returns (events: seq<Event>)
      requires exited == ExitDue(View())
      modifies this`pendingIdle, this`shown, this`lastVisibleSignalRefresh, this`foregroundShellExitReported
      ensures (View(), events) == PublishStep(old(View()), t, agentChanged, screen)
    {
      hide HoldIdle, WorthPublishing;
      events := [];
      var next := Stabilized(screen);
      var (pending, held) := HoldIdle(pendingIdle, shown, next, agentChanged, exited, t.now);
      pendingIdle := pending;
      if held || !WorthPublishing(shown, next, lastVisibleSignalRefresh, agentChanged, exited, t.now) {
        return;
      }
      shown := next;
      lastVisibleSignalRefresh := if next.blocker || next.working then Some(t.now) else None;
      if exited {
        foregroundShellExitReported := true;
      }
      events := [Published(presence.currentAgent, next.state, next.blocker, next.working, exited)];
    }

    /** Read the screen and publish what it shows. */
    method ReadScreen(t: Tick, agentChanged: bool, regrouped: bool, exited: bool) returns (events: seq<Event>)
      requires exited == ExitDue(View())
      modifies this`lastScannedSeq, this`acquisitionStartedAt, this`lastContentChangeAt,
               this`pendingIdle, this`shown, this`lastVisibleSignalRefresh, this`foregroundShellExitReported
      ensures (View(), events) == ReadStep(variant, old(View()), t, agentChanged, regrouped)
    {
      hide PublishStep, SyncWindow;
      lastScannedSeq := if presence.currentAgent.Some? then Some(t.contentSeq) else None;
      if presence.currentAgent.Some? && t.skipUpdate && (variant.Spawned? || !exited) {
        pendingIdle := NOT_PENDING;
        return [];
      }
      SyncContentChangeAcquisition(t.suppressed, regrouped, t.contentChanged, t.now);
      events := PublishScreen(t, agentChanged, exited,
        if exited then Some(Shown(Idle, true, false, false)) else t.screen);
    }

    method PublishScreen(t: Tick, agentChanged: bool, exited: bool, screen: Option<Shown>) returns (events: seq<Event>)
      requires exited == ExitDue(View())
      modifies this`pendingIdle, this`shown, this`lastVisibleSignalRefresh, this`foregroundShellExitReported
      ensures (View(), events)
              == if screen.None? then (old(View()).(pendingIdle := NOT_PENDING), [])
                 else PublishStep(old(View()), t, agentChanged, screen.value)
    {
      hide PublishStep;
      if screen.None? {
        pendingIdle := NOT_PENDING;
        return [];
      }
      events := Publish(t, agentChanged, exited, screen.value);
    }

    /** The part of a tick behind the probe. */
    method ScanScreen(t: Tick, agentChanged: bool, regrouped: bool) returns (events: seq<Event>)
      modifies this
      ensures (View(), events) == ScreenStep(variant, old(View()), t, agentChanged, regrouped)
    {
      hide ReadStep;
      events := [];
      var exited := pendingForegroundShellClear && presence.currentAgent.Some? && !foregroundShellExitReported;
      if t.authority && !exited {
        pendingIdle := NOT_PENDING;
        return;
      }
      if startupGraceUntil.Some? {
        pendingIdle := NOT_PENDING;
        if !exited && t.now < startupGraceUntil.value {
          return;
        }
        startupGraceUntil := None;
        if exited == variant.Spawned? {
          lastScannedSeq := None;
        }
        if !exited {
          return;
        }
      }
      var settled :=
        && shown.state == Idle && presence.currentAgent.Some? && pendingIdle.startedAt.None? && !agentChanged && !exited
        && lastScannedSeq == Some(t.contentSeq);
      if settled {
        return;
      }
      events := ReadScreen(t, agentChanged, regrouped, exited);
    }

    /** The part of a tick in front of the probe decision. */
    method BeginTick(t: Tick)
      modifies this, presence
      ensures View() == Begin(variant, old(View()), t)
    {
      hide ResetDetector;
      if t.reset {
        Reset(t.now);
      }
      if t.suppressed.None? && releaseWasActive {
        hasProcessProbe, acquisitionStartedAt, lastContentChangeAt := false, None, None;
      }
      releaseWasActive := t.suppressed.Some?;
    }

    /** Whether this tick probes the process: never without one, and always while an exit is to be cleared. */
    method DecideProbe(t: Tick) returns (probe: bool)
      ensures probe == Probes(View(), t)
      ensures probe ==> t.alive
      ensures t.alive && pendingForegroundShellClear ==> probe
    {
      var input := ProbeInput(
        presence.currentAgent, t.suppressed, t.Foreground(), lastForegroundGroup, hasProcessProbe,
        if acquisitionStartedAt.Some? then Some(Since(t.now, acquisitionStartedAt.value)) else None,
        pendingForegroundShellClear, pendingRestoreProbe, Since(t.now, lastProcessCheck));
      probe := t.alive && !SkipsProbe(t.authority, input) && ShouldProbe(input);
    }

    /** One round of the loop. It keeps the handshake sound, remembers every exit it reports, and ends a
        reported exit as soon as there is a process to probe. */
    method RunTick(t: Tick) returns (events: seq<Event>, endsRelease: bool)
      modifies this, presence
      ensures (View(), events) == Step(variant, old(View()), t)
      ensures Sound(variant, old(View())) ==> Sound(variant, View())
      ensures ReportsExit(events) ==> pendingForegroundShellClear && foregroundShellExitReported
      ensures Sound(variant, old(View())) && old(foregroundShellExitReported) && t.alive && !t.reset ==>
                !pendingForegroundShellClear && !foregroundShellExitReported
      ensures endsRelease ==> t.suppressed.Some? && t.probe.agent != t.suppressed
    {
      ghost var before := View();
      if Sound(variant, before) {
        StepKeepsSound(variant, before, t);
        if before.handshake.exitReported && t.alive && !t.reset {
          ReportedExitEnds(variant, before, t);
        }
      }
      StepHandshake(variant, before, t);
      hide ProbeStep, ScreenStep, Probes, Sound, Begin, Step, ApplyAction, ReportsExit, ActionAt;
      BeginTick(t);
      StepUnfolds(variant, before, t);
      var regrouped := GroupChanged(t.Foreground(), lastForegroundGroup);
      var agentChanged := false;
      events, endsRelease := [], false;
      var probe := DecideProbe(t);
      if probe {
        agentChanged, endsRelease, events := ProbeProcess(t);
      }
      var more := ScanScreen(t, agentChanged, regrouped);
      assert [] + more == more;
      events := events + more;
    }
  }

  /** No action leaves a reported exit standing. */
  lemma ReportEnds(h: Handshake, previous: Option<Agent>, found: Option<Agent>, isShell: bool)
    ensures var after := ApplyAction(h, ShellAction(previous, found, isShell, h.exitReported), previous, found).0;
            h.exitReported ==> !after.exitReported && !after.pendingClear
  {
    hide Observe, ClearAgent;
  }

  /** A tick in its parts. */
  lemma StepUnfolds(v: Variant, s: Detector, t: Tick)
    ensures var b := Begin(v, s, t);
            Step(v, s, t)
            == if Probes(b, t) then
                 var (p, changed, events) := ProbeStep(b, t);
                 var (q, more) := ScreenStep(v, p, t, changed, RegroupedAt(b, t));
                 (q, events + more)
               else ScreenStep(v, b, t, false, RegroupedAt(b, t))
  {
    hide ProbeStep, ScreenStep, Probes, Begin;
  }
}
