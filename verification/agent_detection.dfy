/** Deciding which agent runs in a pane: process probes, the exit handshake, and what is published. */
module AgentDetection {
  import opened Options

  type Agent = nat
  type Millis = nat

  const MISS_CONFIRMATIONS: nat := 6
  const RECHECK_IDENTIFIED: Millis := 5000
  const RECHECK_MISSING_GROUP: Millis := 30000
  const ACQUISITION_WINDOW: Millis := 8000
  const FAST_WINDOW: Millis := 1500
  const FAST_RECHECK: Millis := 500
  const SLOW_RECHECK: Millis := 2000
  const IDLE_RESET: Millis := 2000
  const STARTUP_GRACE: Millis := 3000
  const PENDING_IDLE_CONFIRMATIONS: nat := 3
  const PENDING_IDLE_CAP: Millis := 700
  const SIGNAL_REFRESH: Millis := 800

  /** `duration_since`, which is zero for an earlier instant. */
  function Since(now: Millis, then_: Millis): Millis { if now <= then_ then 0 else now - then_ }

  /* ---- presence ---- */

  datatype Presence = Presence(agent: Option<Agent>, misses: nat)

  /** `observe_process_probe`: the presence afterwards and whether the agent changed. */
  function Observe(p: Presence, identified: Option<Agent>): (Presence, bool) {
    match identified
    case Some(a) => (Presence(Some(a), 0), p.agent != Some(a))
    case None =>
      if p.agent.None? then (Presence(None, 0), false)
      else if p.misses + 1 < MISS_CONFIRMATIONS then (Presence(p.agent, p.misses + 1), false)
      else (Presence(None, 0), true)
  }

  /** `clear_current_agent` */
  function ClearAgent(p: Presence): (Presence, bool) { (Presence(None, 0), p.agent.Some?) }

  datatype Action = ObserveProbe | ReportProcessExit | ReportReplacement | ClearIdentity

  /** `foreground_shell_agent_action` */
  function ShellAction(previous: Option<Agent>, found: Option<Agent>, isShell: bool, exitReported: bool): Action {
    if previous.None? then ObserveProbe
    else if exitReported then
      if found == previous then ReportReplacement
      else if found.None? then ClearIdentity
      else ObserveProbe
    else if found.None? && isShell then ReportProcessExit
    else ObserveProbe
  }

  /** The two handshake flags beside the presence. */
  datatype Handshake = Handshake(presence: Presence, pendingClear: bool, exitReported: bool)

  /** `apply_foreground_shell_agent_action` */
  function ApplyAction(h: Handshake, action: Action, previous: Option<Agent>, found: Option<Agent>): (Handshake, bool) {
    match action
    case ReportReplacement => (Handshake(Observe(h.presence, previous).0, false, false), true)
    case ReportProcessExit => (h.(pendingClear := true), false)
    case ClearIdentity => (Handshake(ClearAgent(h.presence).0, false, false), ClearAgent(h.presence).1)
    case ObserveProbe => (Handshake(Observe(h.presence, found).0, false, false), Observe(h.presence, found).1)
  }

  /* ---- when to probe ---- */

  datatype ProbeInput = ProbeInput(
    agent: Option<Agent>, suppressed: Option<Agent>, foreground: Option<nat>, lastForeground: Option<nat>,
    hasProbe: bool, acquisitionAge: Option<Millis>, pendingClear: bool, pendingRestore: bool, sinceCheck: Millis)

  /** `foreground_group_changed` */
  predicate GroupChanged(now: Option<nat>, last: Option<nat>) { now != last && (now.Some? || last.Some?) }

  /** `process_group_for_change_tracking` */
  function TrackedGroup(observed: Option<nat>, probed: Option<nat>): Option<nat> {
    if observed.None? then None else if probed.Some? then probed else observed
  }

  /** `should_skip_process_probe_for_lifecycle_authority` */
  predicate SkipsProbe(authority: bool, i: ProbeInput) {
    && authority && i.foreground.Some? && !i.pendingClear && i.suppressed.None? && i.hasProbe
    && !GroupChanged(i.foreground, i.lastForeground)
  }

  /** `should_probe_foreground_job` */
  predicate ShouldProbe(i: ProbeInput) {
    if i.pendingClear || i.pendingRestore then true
    else if i.suppressed.Some? then !i.hasProbe || GroupChanged(i.foreground, i.lastForeground)
    else if
      && i.acquisitionAge.Some? && i.acquisitionAge.value <= ACQUISITION_WINDOW
      && i.sinceCheck >= (if i.acquisitionAge.value <= FAST_WINDOW then FAST_RECHECK else SLOW_RECHECK)
    then true
    else if i.agent.None? then
      || !i.hasProbe
      || GroupChanged(i.foreground, i.lastForeground)
      || (i.foreground.None? && i.sinceCheck >= RECHECK_MISSING_GROUP)
    else GroupChanged(i.foreground, i.lastForeground) || i.sinceCheck >= RECHECK_IDENTIFIED
  }

  /** The acquisition window: when it started and when content last changed. */
  datatype Window = Window(started: Option<Millis>, lastChange: Option<Millis>)

  const NO_WINDOW := Window(None, None)

  /** `sync_content_change_acquisition` */
  function SyncWindow(
      w: Window, agent: Option<Agent>, suppressed: Option<Agent>, groupChanged: bool, contentChanged: bool,
      now: Millis): Window {
    if agent.Some? || suppressed.Some? || groupChanged then w
    else if contentChanged then
      var restart :=
        w.started.None?
        || (Since(now, w.started.value) > ACQUISITION_WINDOW
            && (w.lastChange.None? || Since(now, w.lastChange.value) >= IDLE_RESET));
      Window(if restart then Some(now) else w.started, Some(now))
    else if
      && w.started.Some? && w.lastChange.Some?
      && Since(now, w.started.value) > ACQUISITION_WINDOW && Since(now, w.lastChange.value) >= IDLE_RESET
    then NO_WINDOW
    else w
  }

  /* ---- what to publish ---- */

  datatype AgentState = Unknown | Idle | Working | Blocked

  /** The published state with its visible signals. */
  datatype Shown = Shown(state: AgentState, idle: bool, blocker: bool, working: bool)

  datatype PendingIdle = PendingIdle(startedAt: Option<Millis>, confirmations: nat)

  const NOT_PENDING := PendingIdle(None, 0)

  /** `should_hold_working_to_idle` */
  function HoldIdle(p: PendingIdle, previous: Shown, next: Shown, agentChanged: bool, exited: bool,
      now: Millis): (PendingIdle, bool) {
    if !(previous.state == Working && next.state == Idle && !next.idle && !next.blocker
         && !agentChanged && !exited) then
      (NOT_PENDING, false)
    else if p.startedAt.None? then (PendingIdle(Some(now), 0), true)
    else if Since(now, p.startedAt.value) >= PENDING_IDLE_CAP then (NOT_PENDING, false)
    else if p.confirmations + 1 >= PENDING_IDLE_CONFIRMATIONS then (NOT_PENDING, false)
    else (p.(confirmations := p.confirmations + 1), true)
  }

  /** `stable_visible_signal_refresh_due` and `should_publish_detection_update` */
  predicate WorthPublishing(previous: Shown, next: Shown, refreshed: Option<Millis>,
      agentChanged: bool, exited: bool, now: Millis) {
    || next != previous || agentChanged || exited
    || (next.blocker && previous.blocker && (refreshed.None? || Since(now, refreshed.value) >= SIGNAL_REFRESH))
  }

  /** What the screen shows, before signals are tied to the state. */
  function Stabilized(d: Shown): Shown {
    Shown(d.state, d.idle && d.state == Idle, d.blocker && d.state == Blocked, d.working && d.state == Working)
  }

  /* ---- the detection loop ---- */

  /** The two places that run the loop: the plain one, and the one behind spawned panes. */
  datatype Variant = Plain | Spawned

  datatype Detector = Detector(
    handshake: Handshake,
    shown: Shown, refreshed: Option<Millis>,
    lastCheck: Millis, lastForeground: Option<nat>, hasProbe: bool,
    window: Window, releaseActive: bool, pendingRestore: bool,
    scannedSeq: Option<nat>, graceUntil: Option<Millis>, pendingIdle: PendingIdle)
  {
    function Agent(): Option<Agent> { handshake.presence.agent }
  }

  datatype Probe = Probe(group: Option<nat>, isShell: bool, agent: Option<Agent>)

  /** Everything one tick meets from outside. */
  datatype Tick = Tick(
    now: Millis, reset: bool, suppressed: Option<Agent>, alive: bool, authority: bool, group: Option<nat>, probe: Probe,
    contentSeq: nat, contentChanged: bool, skipUpdate: bool, screen: Option<Shown>)
  {
    function Foreground(): Option<nat> { if alive then group else None }

    /** What the probe found, unless it is an agent that is being released. */
    function Found(): Option<Agent> {
      if suppressed.Some? && probe.agent == suppressed then None else probe.agent
    }
  }

  datatype Event = Published(agent: Option<Agent>, state: AgentState, blocker: bool, working: bool, exited: bool)

  function Fresh(agent: Option<Agent>, state: AgentState, now: Millis): Detector {
    Detector(
      Handshake(Presence(agent, 0), false, false), Shown(state, agent.Some?, false, false), None,
      now, None, false, NO_WINDOW, false, agent.Some?, None, None, NOT_PENDING)
  }

  /** A new detector. Behind a spawned pane an agent may be known from a restored session. */
  function Start(v: Variant, restored: Option<Agent>, now: Millis): Detector {
    if v.Plain? then Fresh(None, Unknown, now) else Fresh(restored, Idle, now)
  }

  function ResetDetector(v: Variant, s: Detector, now: Millis): Detector {
    Fresh(None, Unknown, if v.Plain? then now else s.lastCheck)
  }

  /** The state in front of the probe decision. */
  function Begin(v: Variant, s: Detector, t: Tick): Detector {
    var r := if t.reset then ResetDetector(v, s, t.now) else s;
    var released := t.suppressed.None? && r.releaseActive;
    r.(hasProbe := r.hasProbe && !released,
       window := if released then NO_WINDOW else r.window,
       releaseActive := t.suppressed.Some?)
  }

  function InputFor(s: Detector, t: Tick): ProbeInput {
    ProbeInput(
      s.Agent(), t.suppressed, t.Foreground(), s.lastForeground, s.hasProbe,
      if s.window.started.Some? then Some(Since(t.now, s.window.started.value)) else None,
      s.handshake.pendingClear, s.pendingRestore, Since(t.now, s.lastCheck))
  }

  /** Whether the tick probes the process. */
  predicate Probes(s: Detector, t: Tick) {
    t.alive && !SkipsProbe(t.authority, InputFor(s, t)) && ShouldProbe(InputFor(s, t))
  }

  predicate RegroupedAt(s: Detector, t: Tick) { GroupChanged(t.Foreground(), s.lastForeground) }

  function ActionAt(s: Detector, t: Tick): Action {
    ShellAction(s.Agent(), t.Found(), t.probe.isShell, s.handshake.exitReported)
  }

  /** The probe's effect on the handshake, and on what drives later probes. */
  function AfterProbe(s: Detector, t: Tick): Detector {
    var h := ApplyAction(s.handshake, ActionAt(s, t), s.Agent(), t.Found()).0;
    s.(handshake := h, lastCheck := t.now, hasProbe := true, pendingRestore := false,
       lastForeground := TrackedGroup(t.Foreground(), t.probe.group),
       window :=
         if t.Found().Some? then NO_WINDOW
         else if h.presence.agent.None? && s.hasProbe && RegroupedAt(s, t) then s.window.(started := Some(t.now))
         else s.window)
  }

  /** A changed agent is published as idle and gets a grace period. */
  function AfterChange(s: Detector, t: Tick): (Detector, seq<Event>) {
    var c := s.(pendingIdle := NOT_PENDING, scannedSeq := None);
    if s.Agent().None? then (c.(graceUntil := None), [])
    else
      (c.(graceUntil := Some(t.now + STARTUP_GRACE), shown := Shown(Idle, true, false, false), refreshed := None),
       [Published(s.Agent(), Idle, false, false, false)])
  }

  /** The probe step: state, whether the agent changed, events. */
  function ProbeStep(s: Detector, t: Tick): (Detector, bool, seq<Event>) {
    var changed := ApplyAction(s.handshake, ActionAt(s, t), s.Agent(), t.Found()).1;
    var p := AfterProbe(s, t);
    if changed then
      var (c, events) := AfterChange(p, t);
      (c, true, events)
    else (p, false, [])
  }

  /** The exit of the current agent is due to be published. */
  predicate ExitDue(s: Detector) {
    s.handshake.pendingClear && s.Agent().Some? && !s.handshake.exitReported
  }

  /** The screen is not read while an idle agent's content stays the same. */
  predicate SkipsScan(s: Detector, t: Tick, agentChanged: bool) {
    && s.shown.state == Idle && s.Agent().Some? && s.pendingIdle.startedAt.None? && !agentChanged && !ExitDue(s)
    && s.scannedSeq == Some(t.contentSeq)
  }

  /** Decide and apply the publication of a detection. */
  function PublishStep(s: Detector, t: Tick, agentChanged: bool, screen: Shown): (Detector, seq<Event>) {
    var exited := ExitDue(s);
    var next := Stabilized(screen);
    var (pending, held) := HoldIdle(s.pendingIdle, s.shown, next, agentChanged, exited, t.now);
    var p := s.(pendingIdle := pending);
    if held || !WorthPublishing(s.shown, next, s.refreshed, agentChanged, exited, t.now) then (p, [])
    else
      (p.(shown := next,
          refreshed := if next.blocker || next.working then Some(t.now) else None,
          handshake := p.handshake.(exitReported := p.handshake.exitReported || exited)),
       [Published(s.Agent(), next.state, next.blocker, next.working, exited)])
  }

  /** The screen step once the screen is read. */
  function ReadStep(v: Variant, s: Detector, t: Tick, agentChanged: bool, regrouped: bool): (Detector, seq<Event>) {
    var r := s.(scannedSeq := if s.Agent().Some? then Some(t.contentSeq) else None);
    if s.Agent().Some? && t.skipUpdate && (v.Spawned? || !ExitDue(s)) then (r.(pendingIdle := NOT_PENDING), [])
    else
      var w := r.(window := SyncWindow(r.window, r.Agent(), t.suppressed, regrouped, t.contentChanged, t.now));
      if ExitDue(s) then PublishStep(w, t, agentChanged, Shown(Idle, true, false, false))
      else
        match t.screen
        case None => (w.(pendingIdle := NOT_PENDING), [])
        case Some(screen) => PublishStep(w, t, agentChanged, screen)
  }

  /** The screen step: authority, grace period, skipped scans, reading. */
  function ScreenStep(v: Variant, s: Detector, t: Tick, agentChanged: bool, regrouped: bool): (Detector, seq<Event>) {
    var quiet := s.(pendingIdle := NOT_PENDING);
    if t.authority && !ExitDue(s) then (quiet, [])
    else if s.graceUntil.Some? && !ExitDue(s) then
      if t.now < s.graceUntil.value then (quiet, [])
      else (quiet.(graceUntil := None, scannedSeq := if v.Plain? then None else s.scannedSeq), [])
    else
      var g :=
        if s.graceUntil.None? then s
        else quiet.(graceUntil := None, scannedSeq := if v.Spawned? then None else s.scannedSeq);
      if SkipsScan(g, t, agentChanged) then (g, []) else ReadStep(v, g, t, agentChanged, regrouped)
  }

  /** One round of the loop. */
  function Step(v: Variant, s: Detector, t: Tick): (Detector, seq<Event>) {
    var b := Begin(v, s, t);
    if Probes(b, t) then
      var (p, changed, events) := ProbeStep(b, t);
      var (q, more) := ScreenStep(v, p, t, changed, RegroupedAt(b, t));
      (q, events + more)
    else ScreenStep(v, b, t, false, RegroupedAt(b, t))
  }
}
